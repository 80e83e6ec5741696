/**
 The remaining storage values of the genesis check (law record, manifest, law list) and
 the check itself: which genesis states does it let through?
 */
module Genesis {
  import opened Bytes
  import opened Scale
  import opened Constitution
  import opened ConstitutionTheorem

  const IMMUTABLE_ARTICLES: seq<nat> := [1, 2, 3, 17, 19, 24, 34, 42]

  // ----- law record -----

  datatype LawRecord = LawRecord(lawId: nat, tier: byte, scopeCode: nat, houses: seq<Text>,
                                 effective: Option<nat>, latest: nat, pending: Option<nat>, status: byte)

  /** What `parse_law` keeps: everything but the houses. */
  datatype Law = Law(lawId: nat, tier: byte, scopeCode: nat, effective: Option<nat>,
                     latest: nat, pending: Option<nat>, status: byte)

  predicate LawSized(l: LawRecord) {
    && U64Sized(l.lawId) && U32Sized(l.scopeCode) && CompactSized(|l.houses|)
    && (forall h | h in l.houses :: TextSized(h))
    && (l.effective.Some? ==> U32Sized(l.effective.value)) && U32Sized(l.latest)
    && (l.pending.Some? ==> U32Sized(l.pending.value))
  }

  function EncodeTexts(xs: seq<Text>): (e: seq<byte>)
    requires forall h | h in xs :: TextSized(h)
  {
    if xs == [] then []
    else
      assert TextSized(xs[0]);
      EncodeVec(xs[0]) + EncodeTexts(xs[1..])
  }

  function EncodeLawTail(l: LawRecord): (e: seq<byte>) {
    EncodeOptU32(l.effective) + (ToLE(l.latest, 4) + (EncodeOptU32(l.pending) + [l.status]))
  }

  function EncodeLaw(l: LawRecord): (e: seq<byte>)
    requires LawSized(l)
  {
    ToLE(l.lawId, 8) + ([l.tier] + (ToLE(l.scopeCode, 4)
    + (EncodeCompact(|l.houses|) + (EncodeTexts(l.houses) + EncodeLawTail(l)))))
  }

  function SkipTexts(d: seq<byte>, i: nat, n: nat): (r: Step<()>)
    requires i <= |d|
    ensures r.Done? ==> i + n <= r.next <= |d|
    decreases n
  {
    if n == 0 then Done((), i)
    else
      var (_, j) :- ReadVec(d, i);
      SkipTexts(d, j, n - 1)
  }

  datatype LawTail = LawTail(effective: Option<nat>, latest: nat, pending: Option<nat>, status: byte)

  function ReadLawTail(d: seq<byte>, i: nat): (r: Step<LawTail>)
    ensures r.Done? ==> i < r.next <= |d|
  {
    var (effective, i1) :- ReadOptU32(d, i);
    var (latest, i2) :- ReadUint(d, i1, 4);
    var (pending, i3) :- ReadOptU32(d, i2);
    var (status, i4) :- ReadU8(d, i3);
    Done(LawTail(effective, latest, pending, status), i4)
  }

  /** The law without the final length test. */
  function ReadLawFields(d: seq<byte>, i: nat): (r: Step<Law>)
    ensures r.Done? ==> i < r.next <= |d|
  {
    var (lawId, i1) :- ReadUint(d, i, 8);
    var (tier, i2) :- ReadU8(d, i1);
    var (scopeCode, i3) :- ReadUint(d, i2, 4);
    var (n, i4) :- ReadCompact(d, i3);
    var (_, i5) :- SkipTexts(d, i4, n);
    var (t, i6) :- ReadLawTail(d, i5);
    Done(Law(lawId, tier, scopeCode, t.effective, t.latest, t.pending, t.status), i6)
  }

  /** `parse_law`. */
  function ReadLaw(raw: seq<byte>): (r: Result<Law>) {
    match ReadLawFields(raw, 0)
    case Fail(e) => Error(e)
    case Done(l, k) => if k != |raw| then Error(TrailingBytes) else Ok(l)
  }

  lemma {:induction false} TextsRoundTrip(xs: seq<Text>, d: seq<byte>, i: nat)
    requires i <= |d| && (forall h | h in xs :: TextSized(h)) && At(d, i, EncodeTexts(xs))
    ensures SkipTexts(d, i, |xs|) == Done((), i + |EncodeTexts(xs)|)
    decreases |xs|
  {
    hide At, ReadVec, EncodeVec;
    if xs != [] {
      assert TextSized(xs[0]);
      AtSplit(d, i, EncodeVec(xs[0]), EncodeTexts(xs[1..]));
      VecRoundTrip(xs[0], d, i);
      TextsRoundTrip(xs[1..], d, i + |EncodeVec(xs[0])|);
    }
  }

  lemma LawTailRoundTrip(l: LawRecord, d: seq<byte>, i: nat)
    requires LawSized(l) && At(d, i, EncodeLawTail(l))
    ensures ReadLawTail(d, i)
         == Done(LawTail(l.effective, l.latest, l.pending, l.status), i + |EncodeLawTail(l)|)
  {
    hide At, ReadOptU32, ReadUint, ReadU8, EncodeOptU32, ToLE;
    var j := i + |EncodeOptU32(l.effective)|;
    var k := j + 4 + |EncodeOptU32(l.pending)|;
    AtSplit(d, i, EncodeOptU32(l.effective), ToLE(l.latest, 4) + (EncodeOptU32(l.pending) + [l.status]));
    AtSplit(d, j, ToLE(l.latest, 4), EncodeOptU32(l.pending) + [l.status]);
    AtSplit(d, j + 4, EncodeOptU32(l.pending), [l.status]);
    OptU32RoundTrip(l.effective, d, i);
    UintRoundTrip(l.latest, 4, d, j);
    OptU32RoundTrip(l.pending, d, j + 4);
    U8RoundTrip(l.status, d, k);
  }

  lemma LawFieldsRoundTrip(l: LawRecord, d: seq<byte>, i: nat)
    requires LawSized(l) && At(d, i, EncodeLaw(l))
    ensures ReadLawFields(d, i)
         == Done(Law(l.lawId, l.tier, l.scopeCode, l.effective, l.latest, l.pending, l.status),
                 i + |EncodeLaw(l)|)
  {
    hide At, ReadLawTail, ReadUint, ReadU8, ReadCompact, SkipTexts, EncodeLawTail, EncodeTexts, EncodeCompact, ToLE;
    var body := EncodeTexts(l.houses) + EncodeLawTail(l);
    var list := EncodeCompact(|l.houses|) + body;
    AtSplit(d, i, ToLE(l.lawId, 8), [l.tier] + (ToLE(l.scopeCode, 4) + list));
    AtSplit(d, i + 8, [l.tier], ToLE(l.scopeCode, 4) + list);
    AtSplit(d, i + 9, ToLE(l.scopeCode, 4), list);
    UintRoundTrip(l.lawId, 8, d, i);
    U8RoundTrip(l.tier, d, i + 8);
    UintRoundTrip(l.scopeCode, 4, d, i + 9);
    CountRoundTrip(|l.houses|, body, d, i + 13);
    var k := i + 13 + |EncodeCompact(|l.houses|)|;
    AtSplit(d, k, EncodeTexts(l.houses), EncodeLawTail(l));
    AtSlice(d, k, EncodeTexts(l.houses));
    TextsRoundTrip(l.houses, d, k);
    LawTailRoundTrip(l, d, k + |EncodeTexts(l.houses)|);
  }

  /** An encoded law is accepted exactly when nothing follows it, and comes back field by field. */
  lemma LawAcceptedExactly(l: LawRecord, suffix: seq<byte>)
    requires LawSized(l)
    ensures ReadLaw(EncodeLaw(l) + suffix)
         == if suffix == []
            then Ok(Law(l.lawId, l.tier, l.scopeCode, l.effective, l.latest, l.pending, l.status))
            else Error(TrailingBytes)
  {
    hide ReadLawFields, EncodeLaw;
    AtFront(EncodeLaw(l), suffix);
    LawFieldsRoundTrip(l, EncodeLaw(l) + suffix, 0);
  }

  lemma {:induction false} SkipTextsLocal(d: seq<byte>, i: nat, n: nat, d': seq<byte>, j: nat)
    requires i <= |d| && j <= |d'|
    requires SkipTexts(d, i, n).Done? && Copied(d, i, SkipTexts(d, i, n).next, d', j)
    ensures SkipTexts(d', j, n) == Done((), j + (SkipTexts(d, i, n).next - i))
    decreases n
  {
    hide Copied, ReadVec;
    if n > 0 {
      var m := ReadVec(d, i).next;
      CopiedSplit(d, i, m, SkipTexts(d, i, n).next, d', j);
      VecLocal(d, i, d', j);
      SkipTextsLocal(d, m, n - 1, d', j + (m - i));
    }
  }

  lemma OptU32Local(d: seq<byte>, i: nat, d': seq<byte>, j: nat)
    requires ReadOptU32(d, i).Done? && Copied(d, i, ReadOptU32(d, i).next, d', j)
    ensures ReadOptU32(d', j) == Done(ReadOptU32(d, i).value, j + (ReadOptU32(d, i).next - i))
  {
    hide Copied, ReadUint;
    CopiedSplit(d, i, i + 1, ReadOptU32(d, i).next, d', j);
    U8Local(d, i, d', j);
    if d[i] == 1 {
      UintLocal(d, i + 1, 4, d', j + 1);
    }
  }

  lemma LawTailLocal(d: seq<byte>, i: nat, d': seq<byte>, j: nat)
    requires ReadLawTail(d, i).Done? && Copied(d, i, ReadLawTail(d, i).next, d', j)
    ensures ReadLawTail(d', j) == Done(ReadLawTail(d, i).value, j + (ReadLawTail(d, i).next - i))
  {
    hide Copied, At, ReadUint, ReadOptU32;
    var k := ReadLawTail(d, i).next;
    var i1 := ReadOptU32(d, i).next;
    var i3 := ReadOptU32(d, i1 + 4).next;
    CopiedSplit(d, i, i1, k, d', j);
    CopiedSplit(d, i1, i1 + 4, k, d', j + (i1 - i));
    CopiedSplit(d, i1 + 4, i3, k, d', j + (i1 + 4 - i));
    OptU32Local(d, i, d', j);
    UintLocal(d, i1, 4, d', j + (i1 - i));
    OptU32Local(d, i1 + 4, d', j + (i1 + 4 - i));
    U8Local(d, i3, d', j + (i3 - i));
  }

  lemma LawFieldsLocal(d: seq<byte>, i: nat, d': seq<byte>, j: nat)
    requires ReadLawFields(d, i).Done? && Copied(d, i, ReadLawFields(d, i).next, d', j)
    ensures ReadLawFields(d', j) == Done(ReadLawFields(d, i).value, j + (ReadLawFields(d, i).next - i))
  {
    hide Copied, At, ReadUint, ReadLawTail, ReadCompact, SkipTexts;
    var k := ReadLawFields(d, i).next;
    var i4 := ReadCompact(d, i + 13).next;
    var n := ReadCompact(d, i + 13).value;
    var i5 := SkipTexts(d, i4, n).next;
    CopiedSplit(d, i, i + 8, k, d', j);
    CopiedSplit(d, i + 8, i + 9, k, d', j + 8);
    CopiedSplit(d, i + 9, i + 13, k, d', j + 9);
    CopiedSplit(d, i + 13, i4, k, d', j + 13);
    CopiedSplit(d, i4, i5, k, d', j + (i4 - i));
    UintLocal(d, i, 8, d', j);
    U8Local(d, i + 8, d', j + 8);
    UintLocal(d, i + 9, 4, d', j + 9);
    CompactLocal(d, i + 13, d', j + 13);
    CopiedSlice(d, i4, i5, d', j + (i4 - i));
    SkipTextsLocal(d, i4, n, d', j + (i4 - i));
    LawTailLocal(d, i5, d', j + (i5 - i));
  }

  /** The one parser that is not prefix-stable: an accepted law followed by anything is refused. */
  lemma LawNotExtensible(raw: seq<byte>, suffix: seq<byte>)
    requires ReadLaw(raw).Ok? && suffix != []
    ensures ReadLaw(raw + suffix) == Error(TrailingBytes)
  {
    assert (raw + suffix)[0..|raw|] == raw[0..|raw|];
    LawFieldsLocal(raw, 0, raw + suffix, 0);
  }

  // ----- lists of fixed-width values -----

  function ReadUints(d: seq<byte>, i: nat, width: nat, n: nat): (r: Step<seq<nat>>)
    requires i <= |d|
    ensures r.Done? ==> r.next == i + width * n <= |d| && |r.value| == n
    decreases n
  {
    if n == 0 then Done([], i)
    else
      var (v, j) :- ReadUint(d, i, width);
      var (vs, k) :- ReadUints(d, j, width, n - 1);
      Done([v] + vs, k)
  }

  function ReadHashes(d: seq<byte>, i: nat, n: nat): (r: Step<seq<seq<byte>>>)
    requires i <= |d|
    ensures r.Done? ==> r.next == i + 32 * n <= |d| && |r.value| == n
    decreases n
  {
    if n == 0 then Done([], i)
    else
      var (v, j) :- ReadRaw(d, i, 32);
      var (vs, k) :- ReadHashes(d, j, n - 1);
      Done([v] + vs, k)
  }

  /** `parse_vec_u64`. */
  function ReadVecU64(raw: seq<byte>): (r: Step<seq<nat>>) {
    var (n, i) :- ReadCompact(raw, 0);
    ReadUints(raw, i, 8, n)
  }

  /** `parse_manifest`. */
  function ReadManifest(raw: seq<byte>): (r: Step<(seq<nat>, seq<seq<byte>>)>) {
    var (n, i1) :- ReadCompact(raw, 0);
    var (numbers, i2) :- ReadUints(raw, i1, 4, n);
    var (m, i3) :- ReadCompact(raw, i2);
    var (hashes, i4) :- ReadHashes(raw, i3, m);
    Done((numbers, hashes), i4)
  }

  lemma {:induction false} UintsLocal(d: seq<byte>, i: nat, width: nat, n: nat, d': seq<byte>, j: nat)
    requires i <= |d| && j <= |d'|
    requires ReadUints(d, i, width, n).Done? && Copied(d, i, ReadUints(d, i, width, n).next, d', j)
    ensures ReadUints(d', j, width, n) == Done(ReadUints(d, i, width, n).value, j + (ReadUints(d, i, width, n).next - i))
    decreases n
  {
    hide Copied, ReadUint;
    if n > 0 {
      CopiedSplit(d, i, i + width, ReadUints(d, i, width, n).next, d', j);
      UintLocal(d, i, width, d', j);
      UintsLocal(d, i + width, width, n - 1, d', j + width);
    }
  }

  lemma {:induction false} HashesLocal(d: seq<byte>, i: nat, n: nat, d': seq<byte>, j: nat)
    requires i <= |d| && j <= |d'|
    requires ReadHashes(d, i, n).Done? && Copied(d, i, ReadHashes(d, i, n).next, d', j)
    ensures ReadHashes(d', j, n) == Done(ReadHashes(d, i, n).value, j + (ReadHashes(d, i, n).next - i))
    decreases n
  {
    hide Copied;
    if n > 0 {
      CopiedSplit(d, i, i + 32, ReadHashes(d, i, n).next, d', j);
      RawLocal(d, i, 32, d', j);
      HashesLocal(d, i + 32, n - 1, d', j + 32);
    }
  }

  lemma Extended(raw: seq<byte>, k: nat, suffix: seq<byte>)
    requires k <= |raw|
    ensures Copied(raw, 0, k, raw + suffix, 0)
  {
    assert (raw + suffix)[0..k] == raw[0..k];
  }

  /** Success of `parse_vec_u64` on `raw` gives the same result on `raw` followed by anything. */
  lemma VecU64PrefixStable(raw: seq<byte>, suffix: seq<byte>)
    requires ReadVecU64(raw).Done?
    ensures ReadVecU64(raw + suffix) == ReadVecU64(raw)
  {
    hide ReadCompact, Copied, ReadUints;
    var i, k := ReadCompact(raw, 0).next, ReadVecU64(raw).next;
    Extended(raw, k, suffix);
    CopiedSplit(raw, 0, i, k, raw + suffix, 0);
    CompactLocal(raw, 0, raw + suffix, 0);
    UintsLocal(raw, i, 8, ReadCompact(raw, 0).value, raw + suffix, i);
  }

  /** Success of `parse_manifest` on `raw` gives the same result on `raw` followed by anything. */
  lemma ManifestPrefixStable(raw: seq<byte>, suffix: seq<byte>)
    requires ReadManifest(raw).Done?
    ensures ReadManifest(raw + suffix) == ReadManifest(raw)
  {
    hide ReadCompact, Copied, ReadUints, ReadHashes;
    var n, i1 := ReadCompact(raw, 0).value, ReadCompact(raw, 0).next;
    var i2 := ReadUints(raw, i1, 4, n).next;
    var m, i3 := ReadCompact(raw, i2).value, ReadCompact(raw, i2).next;
    var k, long := ReadManifest(raw).next, raw + suffix;
    Extended(raw, k, suffix);
    CopiedSplit(raw, 0, i1, k, long, 0);
    CopiedSplit(raw, i1, i2, k, long, i1);
    CopiedSplit(raw, i2, i3, k, long, i2);
    CompactLocal(raw, 0, long, 0);
    UintsLocal(raw, i1, 4, n, long, i1);
    CompactLocal(raw, i2, long, i2);
    HashesLocal(raw, i3, m, long, i3);
  }

  predicate NumbersSized(xs: seq<nat>, width: nat) {
    CompactSized(|xs|) && forall x | x in xs :: x < Pow256(width)
  }

  predicate HashesSized(hs: seq<seq<byte>>) {
    CompactSized(|hs|) && forall h | h in hs :: |h| == 32
  }

  function EncodeUints(xs: seq<nat>, width: nat): (e: seq<byte>) {
    if xs == [] then [] else ToLE(xs[0], width) + EncodeUints(xs[1..], width)
  }

  function Concat(hs: seq<seq<byte>>): (e: seq<byte>) {
    if hs == [] then [] else hs[0] + Concat(hs[1..])
  }

  function EncodeVecUint(xs: seq<nat>, width: nat): (e: seq<byte>)
    requires NumbersSized(xs, width)
  {
    EncodeCompact(|xs|) + EncodeUints(xs, width)
  }

  function EncodeManifest(numbers: seq<nat>, hashes: seq<seq<byte>>): (e: seq<byte>)
    requires NumbersSized(numbers, 4) && HashesSized(hashes)
  {
    EncodeCompact(|numbers|) + (EncodeUints(numbers, 4) + (EncodeCompact(|hashes|) + Concat(hashes)))
  }

  lemma {:induction false} UintsRoundTrip(xs: seq<nat>, width: nat, d: seq<byte>, i: nat)
    requires i <= |d| && (forall x | x in xs :: x < Pow256(width)) && At(d, i, EncodeUints(xs, width))
    ensures ReadUints(d, i, width, |xs|) == Done(xs, i + |EncodeUints(xs, width)|)
    decreases |xs|
  {
    hide At, ReadUint, ToLE;
    if xs != [] {
      assert xs[0] in xs;
      AtSplit(d, i, ToLE(xs[0], width), EncodeUints(xs[1..], width));
      UintRoundTrip(xs[0], width, d, i);
      AtSlice(d, i + width, EncodeUints(xs[1..], width));
      assert forall x | x in xs[1..] :: x in xs;
      UintsRoundTrip(xs[1..], width, d, i + width);
      assert xs == [xs[0]] + xs[1..];
    }
  }

  lemma RawRoundTripHead(hs: seq<seq<byte>>, d: seq<byte>, i: nat)
    requires hs != [] && (forall h | h in hs :: |h| == 32) && At(d, i, Concat(hs))
    ensures |hs[0]| == 32 && ReadRaw(d, i, 32) == Done(hs[0], i + 32)
  {
    hide At, ReadRaw;
    assert hs[0] in hs;
    AtSplit(d, i, hs[0], Concat(hs[1..]));
    RawRoundTrip(hs[0], d, i);
  }

  lemma {:induction false} HashesRoundTrip(hs: seq<seq<byte>>, d: seq<byte>, i: nat)
    requires i <= |d| && (forall h | h in hs :: |h| == 32) && At(d, i, Concat(hs))
    ensures ReadHashes(d, i, |hs|) == Done(hs, i + |Concat(hs)|)
    decreases |hs|
  {
    hide At, ReadRaw;
    if hs != [] {
      RawRoundTripHead(hs, d, i);
      AtSplit(d, i, hs[0], Concat(hs[1..]));
      AtSlice(d, i + 32, Concat(hs[1..]));
      HashesRoundTrip(hs[1..], d, i + 32);
      assert hs == [hs[0]] + hs[1..];
    }
  }

  lemma VecU64RoundTrip(xs: seq<nat>, suffix: seq<byte>)
    requires NumbersSized(xs, 8)
    ensures ReadVecU64(EncodeVecUint(xs, 8) + suffix) == Done(xs, |EncodeVecUint(xs, 8)|)
  {
    hide At, ReadUints, ReadCompact, EncodeCompact, EncodeUints;
    var e := EncodeVecUint(xs, 8);
    AtFront(e, suffix);
    CountRoundTrip(|xs|, EncodeUints(xs, 8), e + suffix, 0);
    UintsRoundTrip(xs, 8, e + suffix, |EncodeCompact(|xs|)|);
  }

  lemma ManifestRoundTrip(numbers: seq<nat>, hashes: seq<seq<byte>>, suffix: seq<byte>)
    requires NumbersSized(numbers, 4) && HashesSized(hashes)
    ensures ReadManifest(EncodeManifest(numbers, hashes) + suffix)
         == Done((numbers, hashes), |EncodeManifest(numbers, hashes)|)
  {
    hide At, ReadUints, ReadHashes, ReadCompact, EncodeCompact, EncodeUints, Concat;
    var e := EncodeManifest(numbers, hashes);
    var d := e + suffix;
    var second := EncodeCompact(|hashes|) + Concat(hashes);
    AtFront(e, suffix);
    CountRoundTrip(|numbers|, EncodeUints(numbers, 4) + second, d, 0);
    var i1 := |EncodeCompact(|numbers|)|;
    AtSplit(d, i1, EncodeUints(numbers, 4), second);
    UintsRoundTrip(numbers, 4, d, i1);
    var i2 := i1 + |EncodeUints(numbers, 4)|;
    CountRoundTrip(|hashes|, Concat(hashes), d, i2);
    AtSlice(d, i2 + |EncodeCompact(|hashes|)|, Concat(hashes));
    HashesRoundTrip(hashes, d, i2 + |EncodeCompact(|hashes|)|);
  }

  // ----- the genesis check -----

  /** The storage values the check looks up; `None` is a missing key. */
  datatype Storage = Storage(code: Option<seq<byte>>, law: Option<seq<byte>>, version: Option<seq<byte>>,
                             manifest: Option<seq<byte>>, scope: Option<seq<byte>>,
                             nextLawId: Option<seq<byte>>)

  /** `check`, with blake2-256 as the parameter `hash` and the optional CI WASM file as `expected`. */
  predicate CheckGenesis(g: Storage, expected: Option<seq<byte>>, hash: seq<byte> -> seq<byte>) {
    && g.code.Some? && g.code.value != [] && (expected.Some? ==> g.code == expected)
    && g.law.Some? && CheckLaw(ReadLaw(g.law.value))
    && g.version.Some? && g.manifest.Some?
    && CheckManifest(ReadVersion(g.version.value, 0), ReadManifest(g.manifest.value), hash)
    && g.scope.Some? && (var s := ReadVecU64(g.scope.value); s.Done? && s.value == [0])
    && g.nextLawId.Some? && (var n := ReadUint(g.nextLawId.value, 0, 8); n.Done? && n.value == 1)
  }

  predicate CheckLaw(r: Result<Law>) {
    r.Ok? && r.value.lawId == 0 && r.value.tier == 0 && r.value.scopeCode == 0
    && r.value.effective == Some(1) && r.value.latest == 1 && r.value.pending == None
    && r.value.status == 1
  }

  predicate CheckManifest(r: Step<Version>, m: Step<(seq<nat>, seq<seq<byte>>)>, hash: seq<byte> -> seq<byte>) {
    && r.Done? && r.value.lawId == 0 && r.value.version == 1
    && (forall n | n in IMMUTABLE_ARTICLES :: n in r.value.articles)
    && m.Done? && m.value.0 == IMMUTABLE_ARTICLES && |m.value.1| == |m.value.0|
    && forall k | 0 <= k < |m.value.0| ::
         m.value.0[k] in r.value.articles && hash(r.value.articles[m.value.0[k]]) == m.value.1[k]
  }

  /** What a genesis must be: stated on documents, without parsers. */
  ghost predicate SoundGenesis(code: seq<byte>, l: LawRecord, v: LawVersion, numbers: seq<nat>,
                               hashes: seq<seq<byte>>, scope: seq<nat>, next: nat,
                               expected: Option<seq<byte>>, hash: seq<byte> -> seq<byte>)
    requires forall a | a in ArticlesInChapters(v.chapters) :: ArticleSized(a)
  {
    && code != [] && (expected.Some? ==> code == expected.value)
    && l.(houses := []) == LawRecord(0, 0, 0, [], Some(1), 1, None, 1)
    && v.lawId == 0 && v.version == 1
    && ChaptersDistinct(v) && SectionsDistinct(v) && ArticlesDistinct(v)
    && numbers == [1, 2, 3, 17, 19, 24, 34, 42] && |hashes| == |numbers|
    && (forall k | 0 <= k < |numbers| ::
          exists a | a in ArticlesInChapters(v.chapters) ::
            a.number == numbers[k] && hash(EncodeArticle(a)) == hashes[k])
    && scope == [0] && next == 1
  }

  lemma {:induction false} NumberHasArticle(xs: seq<Article>, n: nat) returns (a: Article)
    requires n in Elems(ArticleNumbers(xs))
    ensures a in xs && a.number == n
  {
    if xs[0].number == n {
      a := xs[0];
    } else {
      a := NumberHasArticle(xs[1..], n);
    }
  }

  lemma ManifestMatches(r: Step<Version>, m: Step<(seq<nat>, seq<seq<byte>>)>, v: LawVersion,
                        numbers: seq<nat>, hashes: seq<seq<byte>>, hash: seq<byte> -> seq<byte>)
    requires forall a | a in ArticlesInChapters(v.chapters) :: ArticleSized(a)
    requires r.Done? && m.Done? && m.value == (numbers, hashes)
    requires Indexes(r.value.articles, map[], ArticlesInChapters(v.chapters))
    requires r.value.lawId == v.lawId && r.value.version == v.version
    ensures CheckManifest(r, m, hash) <==>
            && v.lawId == 0 && v.version == 1
            && numbers == IMMUTABLE_ARTICLES && |hashes| == |numbers|
            && forall k | 0 <= k < |numbers| ::
                 exists a | a in ArticlesInChapters(v.chapters) ::
                   a.number == numbers[k] && hash(EncodeArticle(a)) == hashes[k]
  {
    hide ArticleSized, EncodeArticle, ArticleNumbers, ArticlesInChapters;
    var xs := ArticlesInChapters(v.chapters);
    var t := r.value.articles;
    if CheckManifest(r, m, hash) {
      forall k | 0 <= k < |numbers|
        ensures exists a | a in xs :: a.number == numbers[k] && hash(EncodeArticle(a)) == hashes[k]
      {
        assert numbers[k] in t;
        var a := NumberHasArticle(xs, numbers[k]);
        assert t[a.number] == EncodeArticle(a);
      }
    }
    if numbers == IMMUTABLE_ARTICLES && |hashes| == |numbers|
       && forall k | 0 <= k < |numbers| ::
            exists a | a in xs :: a.number == numbers[k] && hash(EncodeArticle(a)) == hashes[k]
    {
      forall k | 0 <= k < |numbers| ensures numbers[k] in t && hash(t[numbers[k]]) == hashes[k] {
        var a :| a in xs && a.number == numbers[k] && hash(EncodeArticle(a)) == hashes[k];
        assert a.number in t && t[a.number] == EncodeArticle(a);
      }
    }
  }

  /**
   On a storage that encodes a genesis, the check passes if and only if the genesis is
   sound: law record effective in version 1, all three levels uniquely numbered, every
   immutable article present with the digest of its own encoding in the manifest, the
   constitution alone in its scope and the next law id 1.
   */
  lemma GenesisAcceptedExactly(code: seq<byte>, l: LawRecord, v: LawVersion, numbers: seq<nat>,
                               hashes: seq<seq<byte>>, scope: seq<nat>, next: nat,
                               expected: Option<seq<byte>>, hash: seq<byte> -> seq<byte>)
    requires LawSized(l) && VersionSized(v) && NumbersSized(numbers, 4) && HashesSized(hashes)
    requires NumbersSized(scope, 8) && U64Sized(next)
    ensures forall a | a in ArticlesInChapters(v.chapters) :: ArticleSized(a)
    ensures CheckGenesis(Storage(Some(code), Some(EncodeLaw(l)), Some(EncodeVersion(v)),
                                 Some(EncodeManifest(numbers, hashes)), Some(EncodeVecUint(scope, 8)),
                                 Some(ToLE(next, 8))), expected, hash)
       <==> SoundGenesis(code, l, v, numbers, hashes, scope, next, expected, hash)
  {
    hide ReadLaw, ReadVersion, ReadManifest, ReadVecU64, ReadUint, CheckManifest, Indexes, ArticleSized;
    hide EncodeLaw, EncodeVersion, EncodeManifest, EncodeVecUint, ToLE, ArticlesInChapters;
    hide ChaptersDistinct, SectionsDistinct, ArticlesDistinct, VersionSized, EncodeArticle;
    NothingBehind(EncodeLaw(l));
    NothingBehind(EncodeVersion(v));
    NothingBehind(EncodeManifest(numbers, hashes));
    NothingBehind(EncodeVecUint(scope, 8));
    LawAcceptedExactly(l, []);
    VersionAcceptedExactlyWhenUnique(v, []);
    ManifestRoundTrip(numbers, hashes, []);
    VecU64RoundTrip(scope, []);
    NothingBehind(ToLE(next, 8));
    AtFront(ToLE(next, 8), []);
    UintRoundTrip(next, 8, ToLE(next, 8), 0);
    var r := ReadVersion(EncodeVersion(v), 0);
    if r.Done? {
      ManifestMatches(r, ReadManifest(EncodeManifest(numbers, hashes)), v, numbers, hashes, hash);
    } else {
      ManifestNeedsVersion(r, ReadManifest(EncodeManifest(numbers, hashes)), hash);
    }
  }

  lemma ManifestNeedsVersion(r: Step<Version>, m: Step<(seq<nat>, seq<seq<byte>>)>, hash: seq<byte> -> seq<byte>)
    requires r.Fail?
    ensures !CheckManifest(r, m, hash)
  {}

  lemma NothingBehind(e: seq<byte>)
    ensures e + [] == e
  {}
}
