/**
 The administrative-area snapshot: the generator that appends the nested
 province/city/town tables to a buffer, the runtime's cursor that walks the bytes, and a
 decoder for the documented layout that both are measured against.
 */
module AreaData {
  import opened Bytes
  import opened Scale

  /** Codes and names are the UTF-8 bytes of the table columns. */
  datatype Town = Town(code: seq<byte>, name: seq<byte>)
  datatype City = City(code: seq<byte>, name: seq<byte>, towns: seq<Town>)
  datatype Province = Province(code: seq<byte>, name: seq<byte>, cities: seq<City>)

  // ----- the layout -----

  function EncodeName(name: seq<byte>): (e: seq<byte>) { [|name| % 256] + name }

  function EncodeTown(t: Town): (e: seq<byte>) { t.code + EncodeName(t.name) }

  function EncodeTowns(ts: seq<Town>): (e: seq<byte>) {
    if ts == [] then [] else EncodeTown(ts[0]) + EncodeTowns(ts[1..])
  }

  function EncodeCity(c: City): (e: seq<byte>) {
    c.code + (EncodeName(c.name) + (ToLE(|c.towns|, 2) + EncodeTowns(c.towns)))
  }

  function EncodeCities(cs: seq<City>): (e: seq<byte>) {
    if cs == [] then [] else EncodeCity(cs[0]) + EncodeCities(cs[1..])
  }

  function EncodeProvince(p: Province): (e: seq<byte>) {
    p.code + (EncodeName(p.name) + (ToLE(|p.cities|, 2) + EncodeCities(p.cities)))
  }

  function EncodeProvinces(ps: seq<Province>): (e: seq<byte>) {
    if ps == [] then [] else EncodeProvince(ps[0]) + EncodeProvinces(ps[1..])
  }

  function EncodeArea(ps: seq<Province>): (e: seq<byte>) {
    ToLE(|ps|, 2) + EncodeProvinces(ps)
  }

  // ----- what the generator accepts -----

  predicate Ascii(s: seq<byte>) { forall b | b in s :: b < 128 }
  predicate CodeOk(code: seq<byte>, n: nat) { |code| == n && Ascii(code) }

  predicate TownFits(t: Town) { CodeOk(t.code, 3) && |t.name| < 256 }
  predicate TownsFit(ts: seq<Town>) { forall t | t in ts :: TownFits(t) }
  predicate CityFits(c: City) {
    CodeOk(c.code, 3) && |c.name| < 256 && |c.towns| < 0x1_0000 && TownsFit(c.towns)
  }
  predicate CitiesFit(cs: seq<City>) { forall c | c in cs :: CityFits(c) }
  predicate ProvinceFits(p: Province) {
    CodeOk(p.code, 2) && |p.name| < 256 && |p.cities| < 0x1_0000 && CitiesFit(p.cities)
  }
  predicate AreaFits(ps: seq<Province>) {
    |ps| < 0x1_0000 && forall p | p in ps :: ProvinceFits(p)
  }

  function CityTotal(ps: seq<Province>): nat {
    if ps == [] then 0 else |ps[0].cities| + CityTotal(ps[1..])
  }

  function TownsIn(cs: seq<City>): nat {
    if cs == [] then 0 else |cs[0].towns| + TownsIn(cs[1..])
  }

  function TownTotal(ps: seq<Province>): nat {
    if ps == [] then 0 else TownsIn(ps[0].cities) + TownTotal(ps[1..])
  }

  // ----- the generator -----

  lemma TakeOne<T>(xs: seq<T>, k: nat)
    requires k < |xs|
    ensures xs[k..][0] == xs[k] && xs[k..][1..] == xs[k + 1..]
  {}

  /**
   The generator's loops. `None` is a failed assertion, a non-ASCII code or a count that
   overflows its u16; the three nested loops write the layout and count cities and towns.
   */
  method Generate(provs: seq<Province>) returns (r: Option<seq<byte>>, cityCount: nat, townCount: nat)
    ensures r.Some? <==> AreaFits(provs)
    ensures r.Some? ==> r.value == EncodeArea(provs)
                        && cityCount == CityTotal(provs) && townCount == TownTotal(provs)
  {
    hide ProvinceFits, EncodeProvince, ToLE, Ascii;
    cityCount, townCount := 0, 0;
    if |provs| >= 0x1_0000 { return None, cityCount, townCount; }
    var buf := ToLE(|provs|, 2);
    for k := 0 to |provs|
      invariant forall p | p in provs[..k] :: ProvinceFits(p)
      invariant buf + EncodeProvinces(provs[k..]) == EncodeArea(provs)
      invariant cityCount + CityTotal(provs[k..]) == CityTotal(provs)
      invariant townCount + TownTotal(provs[k..]) == TownTotal(provs)
    {
      TakeOne(provs, k);
      var p := provs[k];
      assert provs[..k + 1] == provs[..k] + [p];
      var e, towns := GenerateProvince(p);
      if e == None { assert p in provs; return None, cityCount, townCount; }
      ghost var rest := EncodeProvinces(provs[k + 1..]);
      assert (buf + e.value) + rest == buf + (e.value + rest);
      buf := buf + e.value;
      cityCount := cityCount + |p.cities|;
      townCount := townCount + towns;
    }
    assert provs[|provs|..] == [] && provs[..|provs|] == provs;
    return Some(buf), cityCount, townCount;
  }

  method GenerateProvince(p: Province) returns (r: Option<seq<byte>>, townCount: nat)
    ensures r.Some? <==> ProvinceFits(p)
    ensures r.Some? ==> r.value == EncodeProvince(p) && townCount == TownsIn(p.cities)
  {
    hide CityFits, EncodeCity, EncodeName, ToLE, Ascii;
    townCount := 0;
    if |p.code| != 2 || !Ascii(p.code) || |p.name| >= 256 || |p.cities| >= 0x1_0000 { return None, townCount; }
    var buf := p.code + (EncodeName(p.name) + ToLE(|p.cities|, 2));
    assert buf + EncodeCities(p.cities) == EncodeProvince(p);
    for k := 0 to |p.cities|
      invariant forall c | c in p.cities[..k] :: CityFits(c)
      invariant buf + EncodeCities(p.cities[k..]) == EncodeProvince(p)
      invariant townCount + TownsIn(p.cities[k..]) == TownsIn(p.cities)
    {
      TakeOne(p.cities, k);
      var c := p.cities[k];
      assert p.cities[..k + 1] == p.cities[..k] + [c];
      var e := GenerateCity(c);
      if e == None { assert c in p.cities; return None, townCount; }
      ghost var rest := EncodeCities(p.cities[k + 1..]);
      assert (buf + e.value) + rest == buf + (e.value + rest);
      buf := buf + e.value;
      townCount := townCount + |c.towns|;
    }
    assert p.cities[|p.cities|..] == [] && p.cities[..|p.cities|] == p.cities;
    return Some(buf), townCount;
  }

  method GenerateCity(c: City) returns (r: Option<seq<byte>>)
    ensures r.Some? <==> CityFits(c)
    ensures r.Some? ==> r.value == EncodeCity(c)
  {
    if |c.code| != 3 || !Ascii(c.code) || |c.name| >= 256 || |c.towns| >= 0x1_0000 { return None; }
    var buf := c.code + (EncodeName(c.name) + ToLE(|c.towns|, 2));
    assert buf + EncodeTowns(c.towns) == EncodeCity(c);
    for k := 0 to |c.towns|
      invariant forall t | t in c.towns[..k] :: TownFits(t)
      invariant buf + EncodeTowns(c.towns[k..]) == EncodeCity(c)
    {
      TakeOne(c.towns, k);
      var t := c.towns[k];
      assert c.towns[..k + 1] == c.towns[..k] + [t];
      if |t.code| != 3 || !Ascii(t.code) || |t.name| >= 256 { assert t in c.towns; return None; }
      ghost var rest := EncodeTowns(c.towns[k + 1..]);
      assert (buf + EncodeTown(t)) + rest == buf + (EncodeTown(t) + rest);
      buf := buf + (t.code + EncodeName(t.name));
    }
    assert c.towns[|c.towns|..] == [] && c.towns[..|c.towns|] == c.towns;
    return Some(buf);
  }

  // ----- a decoder for the documented layout -----

  function ReadText(utf8: seq<byte> -> bool, d: seq<byte>, i: nat, n: nat): (r: Step<seq<byte>>)
    ensures r.Done? ==> r.next == i + n <= |d| && |r.value| == n
  {
    var (s, k) :- ReadRaw(d, i, n);
    if utf8(s) then Done(s, k) else Fail(BadUtf8)
  }

  function ReadName(utf8: seq<byte> -> bool, d: seq<byte>, i: nat): (r: Step<seq<byte>>)
    ensures r.Done? ==> i < r.next <= |d|
  {
    var (n, j) :- ReadU8(d, i);
    ReadText(utf8, d, j, n)
  }

  function ReadTown(utf8: seq<byte> -> bool, d: seq<byte>, i: nat): (r: Step<Town>)
    ensures r.Done? ==> i < r.next <= |d|
  {
    var (code, i1) :- ReadText(utf8, d, i, 3);
    var (name, i2) :- ReadName(utf8, d, i1);
    Done(Town(code, name), i2)
  }

  function ReadTowns(utf8: seq<byte> -> bool, d: seq<byte>, i: nat, n: nat): (r: Step<seq<Town>>)
    requires i <= |d|
    ensures r.Done? ==> i <= r.next <= |d| && |r.value| == n
    decreases n
  {
    if n == 0 then Done([], i)
    else
      var (t, j) :- ReadTown(utf8, d, i);
      var (ts, k) :- ReadTowns(utf8, d, j, n - 1);
      Done([t] + ts, k)
  }

  function ReadCity(utf8: seq<byte> -> bool, d: seq<byte>, i: nat): (r: Step<City>)
    ensures r.Done? ==> i < r.next <= |d|
  {
    var (code, i1) :- ReadText(utf8, d, i, 3);
    var (name, i2) :- ReadName(utf8, d, i1);
    var (n, i3) :- ReadUint(d, i2, 2);
    var (towns, i4) :- ReadTowns(utf8, d, i3, n);
    Done(City(code, name, towns), i4)
  }

  function ReadCities(utf8: seq<byte> -> bool, d: seq<byte>, i: nat, n: nat): (r: Step<seq<City>>)
    requires i <= |d|
    ensures r.Done? ==> i <= r.next <= |d| && |r.value| == n
    decreases n
  {
    if n == 0 then Done([], i)
    else
      var (c, j) :- ReadCity(utf8, d, i);
      var (cs, k) :- ReadCities(utf8, d, j, n - 1);
      Done([c] + cs, k)
  }

  function ReadProvince(utf8: seq<byte> -> bool, d: seq<byte>, i: nat): (r: Step<Province>)
    ensures r.Done? ==> i < r.next <= |d|
  {
    var (code, i1) :- ReadText(utf8, d, i, 2);
    var (name, i2) :- ReadName(utf8, d, i1);
    var (n, i3) :- ReadUint(d, i2, 2);
    var (cities, i4) :- ReadCities(utf8, d, i3, n);
    Done(Province(code, name, cities), i4)
  }

  function ReadProvinces(utf8: seq<byte> -> bool, d: seq<byte>, i: nat, n: nat): (r: Step<seq<Province>>)
    requires i <= |d|
    ensures r.Done? ==> i <= r.next <= |d| && |r.value| == n
    decreases n
  {
    if n == 0 then Done([], i)
    else
      var (p, j) :- ReadProvince(utf8, d, i);
      var (ps, k) :- ReadProvinces(utf8, d, j, n - 1);
      Done([p] + ps, k)
  }

  function ReadArea(utf8: seq<byte> -> bool, d: seq<byte>): (r: Step<seq<Province>>) {
    var (n, i) :- ReadUint(d, 0, 2);
    ReadProvinces(utf8, d, i, n)
  }

  // ----- decoding undoes encoding -----

  /** ASCII text is valid UTF-8, and every name of the tree came out of a UTF-8 encoder. */
  ghost predicate TextValid(utf8: seq<byte> -> bool, ps: seq<Province>) {
    && (forall s | Ascii(s) :: utf8(s))
    && forall p | p in ps :: ProvinceText(utf8, p)
  }
  ghost predicate ProvinceText(utf8: seq<byte> -> bool, p: Province) {
    utf8(p.name) && forall c | c in p.cities :: CityText(utf8, c)
  }
  ghost predicate CityText(utf8: seq<byte> -> bool, c: City) {
    utf8(c.name) && forall t | t in c.towns :: TownText(utf8, t)
  }
  ghost predicate TownText(utf8: seq<byte> -> bool, t: Town) { utf8(t.name) }

  // What the fields of the layout can hold: lengths that fit, and text.

  predicate LabelShape(utf8: seq<byte> -> bool, code: seq<byte>, n: nat, name: seq<byte>) {
    |code| == n && utf8(code) && |name| < 256 && utf8(name)
  }
  ghost predicate TownsShape(utf8: seq<byte> -> bool, ts: seq<Town>) {
    forall t | t in ts :: LabelShape(utf8, t.code, 3, t.name)
  }
  ghost predicate CityShape(utf8: seq<byte> -> bool, c: City) {
    LabelShape(utf8, c.code, 3, c.name) && |c.towns| < 0x1_0000 && TownsShape(utf8, c.towns)
  }
  ghost predicate CitiesShape(utf8: seq<byte> -> bool, cs: seq<City>) { forall c | c in cs :: CityShape(utf8, c) }
  ghost predicate ProvinceShape(utf8: seq<byte> -> bool, p: Province) {
    LabelShape(utf8, p.code, 2, p.name) && |p.cities| < 0x1_0000 && CitiesShape(utf8, p.cities)
  }
  ghost predicate ProvincesShape(utf8: seq<byte> -> bool, ps: seq<Province>) { forall p | p in ps :: ProvinceShape(utf8, p) }

  lemma CityHasShape(utf8: seq<byte> -> bool, c: City)
    requires (forall s | Ascii(s) :: utf8(s)) && CityFits(c) && CityText(utf8, c)
    ensures CityShape(utf8, c)
  {
    hide Ascii;
    forall t | t in c.towns ensures LabelShape(utf8, t.code, 3, t.name) { assert TownFits(t) && TownText(utf8, t); }
  }

  lemma AreaHasShape(utf8: seq<byte> -> bool, ps: seq<Province>)
    requires AreaFits(ps) && TextValid(utf8, ps)
    ensures ProvincesShape(utf8, ps) && |ps| < 0x1_0000
  {
    hide Ascii, CityShape, CityFits, CityText;
    forall p | p in ps ensures ProvinceShape(utf8, p) {
      assert ProvinceFits(p) && ProvinceText(utf8, p);
      forall c | c in p.cities ensures CityShape(utf8, c) {
        assert CityFits(c) && CityText(utf8, c);
        CityHasShape(utf8, c);
      }
    }
  }

  lemma TextRoundTrip(utf8: seq<byte> -> bool, s: seq<byte>, d: seq<byte>, i: nat)
    requires utf8(s) && At(d, i, s)
    ensures ReadText(utf8, d, i, |s|) == Done(s, i + |s|)
  {}

  lemma NameRoundTrip(utf8: seq<byte> -> bool, s: seq<byte>, d: seq<byte>, i: nat)
    requires utf8(s) && |s| < 256 && At(d, i, EncodeName(s))
    ensures ReadName(utf8, d, i) == Done(s, i + |EncodeName(s)|)
  {
    hide At, ReadText, ReadU8;
    AtSplit(d, i, [|s| % 256], s);
    U8RoundTrip(|s|, d, i);
    TextRoundTrip(utf8, s, d, i + 1);
  }

  lemma TownRoundTrip(utf8: seq<byte> -> bool, t: Town, d: seq<byte>, i: nat)
    requires LabelShape(utf8, t.code, 3, t.name) && At(d, i, EncodeTown(t))
    ensures ReadTown(utf8, d, i) == Done(t, i + |EncodeTown(t)|)
  {
    hide At, ReadText, ReadName, EncodeName;
    AtSplit(d, i, t.code, EncodeName(t.name));
    TextRoundTrip(utf8, t.code, d, i);
    NameRoundTrip(utf8, t.name, d, i + 3);
  }

  lemma {:induction false} TownsRoundTrip(utf8: seq<byte> -> bool, ts: seq<Town>, d: seq<byte>, i: nat)
    requires i <= |d| && TownsShape(utf8, ts) && At(d, i, EncodeTowns(ts))
    ensures ReadTowns(utf8, d, i, |ts|) == Done(ts, i + |EncodeTowns(ts)|)
    decreases |ts|
  {
    hide At, ReadTown, EncodeTown, LabelShape;
    if ts != [] {
      AtSplit(d, i, EncodeTown(ts[0]), EncodeTowns(ts[1..]));
      TownRoundTrip(utf8, ts[0], d, i);
      TownsRoundTrip(utf8, ts[1..], d, i + |EncodeTown(ts[0])|);
      assert ts == [ts[0]] + ts[1..];
    }
  }

  /** A u16 count and the list it counts. */
  lemma CountAndList(n: nat, body: seq<byte>, d: seq<byte>, i: nat)
    requires n < 0x1_0000 && At(d, i, ToLE(n, 2) + body)
    ensures ReadUint(d, i, 2) == Done(n, i + 2) && At(d, i + 2, body) && i + 2 <= |d|
  {
    Pow256Small();
    AtSplit(d, i, ToLE(n, 2), body);
    UintRoundTrip(n, 2, d, i);
  }

  lemma CityRoundTrip(utf8: seq<byte> -> bool, c: City, d: seq<byte>, i: nat)
    requires CityShape(utf8, c) && At(d, i, EncodeCity(c))
    ensures ReadCity(utf8, d, i) == Done(c, i + |EncodeCity(c)|)
  {
    hide At, ReadText, ReadName, ReadTowns, ReadUint, EncodeName, EncodeTowns, ToLE, TownsShape;
    var list := ToLE(|c.towns|, 2) + EncodeTowns(c.towns);
    var k := i + 3 + |EncodeName(c.name)|;
    AtSplit(d, i, c.code, EncodeName(c.name) + list);
    AtSplit(d, i + 3, EncodeName(c.name), list);
    TextRoundTrip(utf8, c.code, d, i);
    NameRoundTrip(utf8, c.name, d, i + 3);
    CountAndList(|c.towns|, EncodeTowns(c.towns), d, k);
    TownsRoundTrip(utf8, c.towns, d, k + 2);
  }

  lemma {:induction false} CitiesRoundTrip(utf8: seq<byte> -> bool, cs: seq<City>, d: seq<byte>, i: nat)
    requires i <= |d| && CitiesShape(utf8, cs) && At(d, i, EncodeCities(cs))
    ensures ReadCities(utf8, d, i, |cs|) == Done(cs, i + |EncodeCities(cs)|)
    decreases |cs|
  {
    hide At, ReadCity, EncodeCity, CityShape;
    if cs != [] {
      AtSplit(d, i, EncodeCity(cs[0]), EncodeCities(cs[1..]));
      CityRoundTrip(utf8, cs[0], d, i);
      CitiesRoundTrip(utf8, cs[1..], d, i + |EncodeCity(cs[0])|);
      assert cs == [cs[0]] + cs[1..];
    }
  }

  lemma ProvinceRoundTrip(utf8: seq<byte> -> bool, p: Province, d: seq<byte>, i: nat)
    requires ProvinceShape(utf8, p) && At(d, i, EncodeProvince(p))
    ensures ReadProvince(utf8, d, i) == Done(p, i + |EncodeProvince(p)|)
  {
    hide At, ReadText, ReadName, ReadCities, ReadUint, EncodeName, EncodeCities, ToLE, CitiesShape;
    var list := ToLE(|p.cities|, 2) + EncodeCities(p.cities);
    var k := i + 2 + |EncodeName(p.name)|;
    AtSplit(d, i, p.code, EncodeName(p.name) + list);
    AtSplit(d, i + 2, EncodeName(p.name), list);
    TextRoundTrip(utf8, p.code, d, i);
    NameRoundTrip(utf8, p.name, d, i + 2);
    CountAndList(|p.cities|, EncodeCities(p.cities), d, k);
    CitiesRoundTrip(utf8, p.cities, d, k + 2);
  }

  lemma {:induction false} ProvincesRoundTrip(utf8: seq<byte> -> bool, ps: seq<Province>, d: seq<byte>, i: nat)
    requires i <= |d| && ProvincesShape(utf8, ps) && At(d, i, EncodeProvinces(ps))
    ensures ReadProvinces(utf8, d, i, |ps|) == Done(ps, i + |EncodeProvinces(ps)|)
    decreases |ps|
  {
    hide At, ReadProvince, EncodeProvince, ProvinceShape;
    if ps != [] {
      AtSplit(d, i, EncodeProvince(ps[0]), EncodeProvinces(ps[1..]));
      ProvinceRoundTrip(utf8, ps[0], d, i);
      ProvincesRoundTrip(utf8, ps[1..], d, i + |EncodeProvince(ps[0])|);
      assert ps == [ps[0]] + ps[1..];
    }
  }

  /** The decoder recovers the exact nesting and stops behind the encoding, whatever follows. */
  lemma AreaRoundTrip(utf8: seq<byte> -> bool, ps: seq<Province>, suffix: seq<byte>)
    requires AreaFits(ps) && TextValid(utf8, ps)
    ensures ReadArea(utf8, EncodeArea(ps) + suffix) == Done(ps, |EncodeArea(ps)|)
  {
    hide At, ReadProvinces, ReadUint, EncodeProvinces, ToLE, TextValid, AreaFits, ProvincesShape;
    var e := EncodeArea(ps);
    AreaHasShape(utf8, ps);
    assert At(e + suffix, 0, e) by { AtFront(e, suffix); }
    CountAndList(|ps|, EncodeProvinces(ps), e + suffix, 0);
    ProvincesRoundTrip(utf8, ps, e + suffix, 2);
  }

  // ----- what is decoded was encoded -----

  lemma NameDecoded(utf8: seq<byte> -> bool, d: seq<byte>, i: nat)
    requires ReadName(utf8, d, i).Done?
    ensures var s := ReadName(utf8, d, i).value;
            At(d, i, EncodeName(s)) && ReadName(utf8, d, i).next == i + |EncodeName(s)| && |s| < 256 && utf8(s)
  {
    var s := ReadName(utf8, d, i).value;
    assert [d[i]] == d[i..i + 1];
    AtSplit(d, i, [d[i]], s);
  }

  lemma TextDecoded(utf8: seq<byte> -> bool, d: seq<byte>, i: nat, n: nat)
    requires ReadText(utf8, d, i, n).Done?
    ensures var s := ReadText(utf8, d, i, n).value;
            At(d, i, s) && ReadText(utf8, d, i, n).next == i + |s| && |s| == n && utf8(s)
  {}

  lemma TownDecoded(utf8: seq<byte> -> bool, d: seq<byte>, i: nat)
    requires ReadTown(utf8, d, i).Done?
    ensures var t := ReadTown(utf8, d, i).value;
            At(d, i, EncodeTown(t)) && ReadTown(utf8, d, i).next == i + |EncodeTown(t)| && LabelShape(utf8, t.code, 3, t.name)
  {
    hide At, ReadText, ReadName, EncodeName;
    var t := ReadTown(utf8, d, i).value;
    TextDecoded(utf8, d, i, 3);
    NameDecoded(utf8, d, i + 3);
    AtSplit(d, i, t.code, EncodeName(t.name));
  }

  lemma AtEmpty(d: seq<byte>, i: nat)
    requires i <= |d|
    ensures At(d, i, [])
  {}

  lemma {:induction false} TownsDecoded(utf8: seq<byte> -> bool, d: seq<byte>, i: nat, n: nat)
    requires i <= |d| && ReadTowns(utf8, d, i, n).Done?
    ensures var r := ReadTowns(utf8, d, i, n);
            At(d, i, EncodeTowns(r.value)) && r.next == i + |EncodeTowns(r.value)| && TownsShape(utf8, r.value)
    decreases n
  {
    hide At, ReadTown, EncodeTown, LabelShape;
    var ts := ReadTowns(utf8, d, i, n).value;
    if n == 0 {
      AtEmpty(d, i);
    } else {
      TownDecoded(utf8, d, i);
      var t := ReadTown(utf8, d, i);
      TownsDecoded(utf8, d, t.next, n - 1);
      assert ts[1..] == ReadTowns(utf8, d, t.next, n - 1).value;
      AtSplit(d, i, EncodeTown(ts[0]), EncodeTowns(ts[1..]));
    }
  }

  lemma CountDecoded(d: seq<byte>, i: nat)
    requires ReadUint(d, i, 2).Done?
    ensures At(d, i, ToLE(ReadUint(d, i, 2).value, 2)) && ReadUint(d, i, 2).next == i + 2 <= |d| && ReadUint(d, i, 2).value < 0x1_0000
  {
    Pow256Small();
    FromLEInjective(d[i..i + 2]);
  }

  lemma {:induction false} FromLEInjective(s: seq<byte>)
    ensures ToLE(FromLE(s), |s|) == s
  {
    if s != [] {
      FromLEInjective(s[1..]);
      assert FromLE(s) / 256 == FromLE(s[1..]) && FromLE(s) % 256 == s[0];
    }
  }

  lemma CityDecoded(utf8: seq<byte> -> bool, d: seq<byte>, i: nat)
    requires ReadCity(utf8, d, i).Done?
    ensures var r := ReadCity(utf8, d, i);
            At(d, i, EncodeCity(r.value)) && r.next == i + |EncodeCity(r.value)| && CityShape(utf8, r.value)
  {
    hide At, ReadText, ReadName, ReadTowns, ReadUint, EncodeName, EncodeTowns, ToLE, TownsShape;
    var c := ReadCity(utf8, d, i).value;
    TextDecoded(utf8, d, i, 3);
    NameDecoded(utf8, d, i + 3);
    var k := ReadName(utf8, d, i + 3).next;
    CountDecoded(d, k);
    TownsDecoded(utf8, d, k + 2, |c.towns|);
    LabelAndList(d, i, c.code, EncodeName(c.name), ToLE(|c.towns|, 2), EncodeTowns(c.towns));
  }

  lemma LabelAndList(d: seq<byte>, i: nat, code: seq<byte>, name: seq<byte>, count: seq<byte>, list: seq<byte>)
    requires At(d, i, code) && At(d, i + |code|, name) && At(d, i + |code| + |name|, count)
    requires At(d, i + |code| + |name| + |count|, list)
    ensures At(d, i, code + (name + (count + list)))
  {
    hide At;
    AtSplit(d, i + |code| + |name|, count, list);
    AtSplit(d, i + |code|, name, count + list);
    AtSplit(d, i, code, name + (count + list));
  }

  lemma {:induction false} CitiesDecoded(utf8: seq<byte> -> bool, d: seq<byte>, i: nat, n: nat)
    requires i <= |d| && ReadCities(utf8, d, i, n).Done?
    ensures var r := ReadCities(utf8, d, i, n);
            At(d, i, EncodeCities(r.value)) && r.next == i + |EncodeCities(r.value)| && CitiesShape(utf8, r.value)
    decreases n
  {
    hide At, ReadCity, EncodeCity, CityShape;
    var cs := ReadCities(utf8, d, i, n).value;
    if n == 0 {
      AtEmpty(d, i);
    } else {
      CityDecoded(utf8, d, i);
      var c := ReadCity(utf8, d, i);
      CitiesDecoded(utf8, d, c.next, n - 1);
      assert cs[1..] == ReadCities(utf8, d, c.next, n - 1).value;
      AtSplit(d, i, EncodeCity(cs[0]), EncodeCities(cs[1..]));
    }
  }

  lemma ProvinceDecoded(utf8: seq<byte> -> bool, d: seq<byte>, i: nat)
    requires ReadProvince(utf8, d, i).Done?
    ensures var r := ReadProvince(utf8, d, i);
            At(d, i, EncodeProvince(r.value)) && r.next == i + |EncodeProvince(r.value)| && ProvinceShape(utf8, r.value)
  {
    hide At, ReadText, ReadName, ReadCities, ReadUint, EncodeName, EncodeCities, ToLE, CitiesShape;
    var p := ReadProvince(utf8, d, i).value;
    TextDecoded(utf8, d, i, 2);
    NameDecoded(utf8, d, i + 2);
    var k := ReadName(utf8, d, i + 2).next;
    CountDecoded(d, k);
    CitiesDecoded(utf8, d, k + 2, |p.cities|);
    LabelAndList(d, i, p.code, EncodeName(p.name), ToLE(|p.cities|, 2), EncodeCities(p.cities));
  }

  lemma {:induction false} ProvincesDecoded(utf8: seq<byte> -> bool, d: seq<byte>, i: nat, n: nat)
    requires i <= |d| && ReadProvinces(utf8, d, i, n).Done?
    ensures var r := ReadProvinces(utf8, d, i, n);
            At(d, i, EncodeProvinces(r.value)) && r.next == i + |EncodeProvinces(r.value)| && ProvincesShape(utf8, r.value)
    decreases n
  {
    hide At, ReadProvince, EncodeProvince, ProvinceShape;
    var ps := ReadProvinces(utf8, d, i, n).value;
    if n == 0 {
      AtEmpty(d, i);
    } else {
      ProvinceDecoded(utf8, d, i);
      var p := ReadProvince(utf8, d, i);
      ProvincesDecoded(utf8, d, p.next, n - 1);
      assert ps[1..] == ReadProvinces(utf8, d, p.next, n - 1).value;
      AtSplit(d, i, EncodeProvince(ps[0]), EncodeProvinces(ps[1..]));
    }
  }

  /**
   Which bytes are read as which tree: exactly those that start with its layout, when all its texts are texts and
   all lengths fit. All other bytes fail.
   */
  lemma AreaReadExactly(utf8: seq<byte> -> bool, d: seq<byte>, ps: seq<Province>, k: nat)
    ensures ReadArea(utf8, d) == Done(ps, k) <==>
            ProvincesShape(utf8, ps) && |ps| < 0x1_0000 && At(d, 0, EncodeArea(ps)) && k == |EncodeArea(ps)|
  {
    hide At, ReadProvinces, ReadUint, EncodeProvinces, ToLE, ProvincesShape;
    if ReadArea(utf8, d) == Done(ps, k) {
      CountDecoded(d, 0);
      ProvincesDecoded(utf8, d, 2, |ps|);
      AtSplit(d, 0, ToLE(|ps|, 2), EncodeProvinces(ps));
    }
    if ProvincesShape(utf8, ps) && |ps| < 0x1_0000 && At(d, 0, EncodeArea(ps)) {
      CountAndList(|ps|, EncodeProvinces(ps), d, 0);
      ProvincesRoundTrip(utf8, ps, d, 2);
    }
  }

  /** No encoding is a prefix of another tree's encoding: the layout is prefix-free and injective. */
  lemma AreaPrefixFree(utf8: seq<byte> -> bool, ps: seq<Province>, qs: seq<Province>, suffix: seq<byte>)
    requires AreaFits(ps) && AreaFits(qs) && TextValid(utf8, ps) && TextValid(utf8, qs)
    requires EncodeArea(ps) + suffix == EncodeArea(qs)
    ensures ps == qs && suffix == []
  {
    hide AreaFits, TextValid, ReadArea, EncodeArea;
    AreaRoundTrip(utf8, ps, suffix);
    AreaRoundTrip(utf8, qs, []);
    assert EncodeArea(qs) + [] == EncodeArea(qs);
  }

  // ----- the runtime's walk over the bytes -----

  datatype AreaItem =
    | ProvinceItem(provinceCode: seq<byte>, provinceName: seq<byte>, homeCode: seq<byte>, homeName: seq<byte>)
    | CityItem(provinceCode: seq<byte>, provinceName: seq<byte>, cityCode: seq<byte>, cityName: seq<byte>)
    | TownItem(provinceCode: seq<byte>, provinceName: seq<byte>, cityCode: seq<byte>, cityName: seq<byte>,
               townCode: seq<byte>, townName: seq<byte>)

  /** The bytes of "001". */
  const HOME_CODE: seq<byte> := [48, 48, 49]

  /** Code and name of a province or a city. */
  datatype Label = Label(code: seq<byte>, name: seq<byte>)

  function TownItems(p: Label, c: Label, ts: seq<Town>): (s: seq<AreaItem>) {
    if ts == [] then []
    else [TownItem(p.code, p.name, c.code, c.name, ts[0].code, ts[0].name)] + TownItems(p, c, ts[1..])
  }

  function CityBlock(p: Label, c: City): (s: seq<AreaItem>) {
    [CityItem(p.code, p.name, c.code, c.name)] + TownItems(p, Label(c.code, c.name), c.towns)
  }

  function CityItems(p: Label, cs: seq<City>): (s: seq<AreaItem>) {
    if cs == [] then [] else CityBlock(p, cs[0]) + CityItems(p, cs[1..])
  }

  /** The province's home city: its last city coded 001, or its first city. */
  function Home(cs: seq<City>): (h: City)
    requires cs != []
  {
    if |cs| == 1 || cs[|cs| - 1].code == HOME_CODE then cs[|cs| - 1] else Home(cs[..|cs| - 1])
  }

  /** The cities with their towns, then the province itself, if it has a city at all. */
  function ProvinceBlock(p: Province): (s: seq<AreaItem>) {
    CityItems(Label(p.code, p.name), p.cities)
    + if p.cities == [] then []
      else [ProvinceItem(p.code, p.name, Home(p.cities).code, Home(p.cities).name)]
  }

  function ProvinceItems(ps: seq<Province>): (s: seq<AreaItem>) {
    if ps == [] then [] else ProvinceBlock(ps[0]) + ProvinceItems(ps[1..])
  }

  /** What `Home` means: the last city of the list coded 001, or its first one. */
  lemma {:induction false} HomeIsPreferred(cs: seq<City>) returns (h: nat)
    requires cs != []
    ensures h < |cs| && Home(cs) == cs[h]
    ensures forall j | h < j < |cs| :: cs[j].code != [48, 48, 49]
    ensures cs[h].code == [48, 48, 49] || (h == 0 && forall j | 0 <= j < |cs| :: cs[j].code != [48, 48, 49])
  {
    h := |cs| - 1;
    if |cs| > 1 && cs[h].code != HOME_CODE {
      h := HomeIsPreferred(cs[..|cs| - 1]);
    }
  }

  // ----- which item is the how-manieth -----

  /** The items of the first `j` cities: one for each, and one for each of their towns. */
  function CityPlace(cs: seq<City>, j: nat): nat
    requires j <= |cs|
  {
    if j == 0 then 0 else CityPlace(cs, j - 1) + 1 + |cs[j - 1].towns|
  }

  /** The items of the first `q` provinces: those of their cities, and one more where there is a city. */
  function ProvincePlace(ps: seq<Province>, q: nat): nat
    requires q <= |ps|
  {
    if q == 0 then 0
    else ProvincePlace(ps, q - 1) + CityPlace(ps[q - 1].cities, |ps[q - 1].cities|) + if ps[q - 1].cities == [] then 0 else 1
  }

  lemma {:induction false} TownItemsAre(p: Label, c: Label, ts: seq<Town>)
    ensures |TownItems(p, c, ts)| == |ts|
    ensures forall i | 0 <= i < |ts| :: TownItems(p, c, ts)[i] == TownItem(p.code, p.name, c.code, c.name, ts[i].code, ts[i].name)
  {
    if ts != [] { TownItemsAre(p, c, ts[1..]); }
  }

  lemma {:induction false} CityPlacePrefix(cs: seq<City>, n: nat, j: nat)
    requires j <= n <= |cs|
    ensures CityPlace(cs[..n], j) == CityPlace(cs, j)
    ensures CityPlace(cs, j) <= CityPlace(cs, n)
    decreases n, j
  {
    if j < n { CityPlacePrefix(cs, n - 1, j); }
    if j > 0 { CityPlacePrefix(cs, n, j - 1); }
  }

  /** A city's item is followed by those of its towns, in their order. */
  ghost predicate CityStands(items: seq<AreaItem>, at: nat, p: Label, c: City) {
    && at + 1 + |c.towns| <= |items| && items[at] == CityItem(p.code, p.name, c.code, c.name)
    && forall i | 0 <= i < |c.towns| ::
         items[at + 1 + i] == TownItem(p.code, p.name, c.code, c.name, c.towns[i].code, c.towns[i].name)
  }

  lemma CityBlockStands(x: seq<AreaItem>, p: Label, c: City, y: seq<AreaItem>)
    ensures CityStands(x + CityBlock(p, c) + y, |x|, p, c) && |CityBlock(p, c)| == 1 + |c.towns|
  {
    TownItemsAre(p, Label(c.code, c.name), c.towns);
    var b := CityBlock(p, c);
    var t := x + b + y;
    forall i | 0 <= i < |c.towns|
      ensures t[|x| + 1 + i] == TownItem(p.code, p.name, c.code, c.name, c.towns[i].code, c.towns[i].name)
    {
      assert t[|x| + 1 + i] == b[1 + i];
    }
  }

  lemma StandsInside(items: seq<AreaItem>, at: nat, p: Label, c: City, x: seq<AreaItem>, y: seq<AreaItem>)
    requires CityStands(items, at, p, c)
    ensures CityStands(x + items + y, |x| + at, p, c)
  {
    var t := x + items + y;
    forall i | 0 <= i < |c.towns|
      ensures t[|x| + at + 1 + i] == TownItem(p.code, p.name, c.code, c.name, c.towns[i].code, c.towns[i].name)
    {
      assert t[|x| + at + 1 + i] == items[at + 1 + i];
    }
  }

  lemma {:induction false} CitiesStand(p: Label, cs: seq<City>, j: nat)
    requires j < |cs|
    ensures |CityItems(p, cs)| == CityPlace(cs, |cs|) && CityPlace(cs, 0) == |CityItems(p, [])|
    ensures CityStands(CityItems(p, cs), CityPlace(cs, j), p, cs[j])
    decreases |cs|
  {
    hide CityStands, CityBlock;
    var n := |cs| - 1;
    var front, last := cs[..n], cs[n];
    assert cs == front + [last];
    CityItemsAppend(p, front, last);
    CityBlockStands(CityItems(p, front), p, last, []);
    assert CityItems(p, front) + CityBlock(p, last) + [] == CityItems(p, cs);
    CityPlacePrefix(cs, n, n);
    if j < n { CityPlacePrefix(cs, n, j); }
    if n > 0 {
      CitiesStand(p, front, if j < n then j else 0);
      if j < n {
        StandsBefore(CityItems(p, front), CityPlace(front, j), p, cs[j], CityBlock(p, last));
      }
    }
  }

  /** The block of province `q` among the items: its cities with their towns, then the province and its home city. */
  ghost predicate ProvinceStands(items: seq<AreaItem>, at: nat, p: Province) {
    var n := CityPlace(p.cities, |p.cities|);
    && at + n <= |items|
    && (forall j: nat | j < |p.cities| :: CityStands(items, at + CityPlace(p.cities, j), Label(p.code, p.name), p.cities[j]))
    && (p.cities != [] ==>
          at + n < |items| && items[at + n] == ProvinceItem(p.code, p.name, Home(p.cities).code, Home(p.cities).name))
  }

  lemma BlockStands(x: seq<AreaItem>, p: Province, y: seq<AreaItem>)
    ensures ProvinceStands(x + ProvinceBlock(p) + y, |x|, p)
    ensures |ProvinceBlock(p)| == CityPlace(p.cities, |p.cities|) + if p.cities == [] then 0 else 1
  {
    hide CityStands, Home, CityPlace, CityItems;
    var l := Label(p.code, p.name);
    if p.cities == [] {
      NoCities(l);
      assert x + [] + y == x + y;
    } else {
      var items, last := CityItems(l, p.cities), [ProvinceItem(p.code, p.name, Home(p.cities).code, Home(p.cities).name)];
      CitiesStand(l, p.cities, 0);
      BlockAround(x, items, last, y);
      forall j: nat | j < |p.cities| ensures CityStands(x + items + (last + y), |x| + CityPlace(p.cities, j), l, p.cities[j]) {
        CitiesStand(l, p.cities, j);
        StandsInside(items, CityPlace(p.cities, j), l, p.cities[j], x, last + y);
      }
    }
  }

  lemma NoCities(l: Label)
    ensures CityItems(l, []) == [] && CityPlace([], 0) == 0
  {}

  lemma BlockAround(x: seq<AreaItem>, items: seq<AreaItem>, last: seq<AreaItem>, y: seq<AreaItem>)
    requires |last| == 1
    ensures x + (items + last) + y == x + items + (last + y)
    ensures (x + items + (last + y))[|x| + |items|] == last[0]
  {}

  lemma ProvinceStandsInside(items: seq<AreaItem>, at: nat, p: Province, y: seq<AreaItem>)
    requires ProvinceStands(items, at, p)
    ensures ProvinceStands(items + y, at, p)
  {
    hide CityStands, Home, CityPlace;
    forall j: nat | j < |p.cities|
      ensures CityStands(items + y, at + CityPlace(p.cities, j), Label(p.code, p.name), p.cities[j])
    {
      StandsBefore(items, at + CityPlace(p.cities, j), Label(p.code, p.name), p.cities[j], y);
    }
  }

  lemma StandsBefore(items: seq<AreaItem>, at: nat, p: Label, c: City, y: seq<AreaItem>)
    requires CityStands(items, at, p, c)
    ensures CityStands(items + y, at, p, c)
  {
    hide CityStands;
    StandsInside(items, at, p, c, [], y);
    assert [] + items + y == items + y;
  }

  lemma {:induction false} ProvincePlacePrefix(ps: seq<Province>, n: nat, q: nat)
    requires q <= n <= |ps|
    ensures ProvincePlace(ps[..n], q) == ProvincePlace(ps, q)
  {
    if q > 0 { ProvincePlacePrefix(ps, n, q - 1); }
  }

  /**
   The items of the walk, place by place: the provinces in order, in each its cities in order, each followed by its
   towns in order, and behind the cities the province with its home city; there is no other item.
   */
  lemma {:induction false} ItemsExactly(ps: seq<Province>)
    ensures |ProvinceItems(ps)| == ProvincePlace(ps, |ps|)
    ensures forall q: nat | q < |ps| :: ProvinceStands(ProvinceItems(ps), ProvincePlace(ps, q), ps[q])
    decreases |ps|
  {
    if ps != [] {
      var n := |ps| - 1;
      var front, last := ps[..n], ps[n];
      hide ProvinceStands, ProvinceBlock, CityPlace;
      assert ps == front + [last];
      ItemsExactly(front);
      ProvinceItemsAppend(front, last);
      ProvincePlacePrefix(ps, n, n);
      BlockStands(ProvinceItems(front), last, []);
      assert ProvinceItems(front) + ProvinceBlock(last) + [] == ProvinceItems(ps);
      forall q: nat | q < |ps| ensures ProvinceStands(ProvinceItems(ps), ProvincePlace(ps, q), ps[q]) {
        if q < n {
          ProvincePlacePrefix(ps, n, q);
          assert front[q] == ps[q];
          ProvinceStandsInside(ProvinceItems(front), ProvincePlace(front, q), ps[q], ProvinceBlock(last));
        }
      }
    }
  }

  // What remains to be read, put behind what the loops have walked.

  ghost function Behind<T>(walked: seq<T>, r: Step<seq<T>>): Step<seq<T>> {
    match r
    case Done(xs, k) => Done(walked + xs, k)
    case Fail(e) => Fail(e)
  }

  lemma BehindNothing<T>(r: Step<seq<T>>)
    ensures Behind([], r) == r
  {
    if r.Done? { assert [] + r.value == r.value; }
  }

  lemma BehindStep<T>(walked: seq<T>, x: T, r: Step<seq<T>>)
    ensures Behind(walked + [x], r) == match r case Done(xs, k) => Done(walked + ([x] + xs), k) case Fail(e) => Fail(e)
  {
    if r.Done? { assert walked + ([x] + r.value) == walked + [x] + r.value; }
  }

  lemma {:induction false} TownItemsAppend(p: Label, c: Label, ts: seq<Town>, t: Town)
    ensures TownItems(p, c, ts + [t])
         == TownItems(p, c, ts) + [TownItem(p.code, p.name, c.code, c.name, t.code, t.name)]
  {
    if ts == [] {
      assert ts + [t] == [t];
    } else {
      assert (ts + [t])[1..] == ts[1..] + [t];
      TownItemsAppend(p, c, ts[1..], t);
    }
  }

  lemma {:induction false} CityItemsAppend(p: Label, cs: seq<City>, c: City)
    ensures CityItems(p, cs + [c]) == CityItems(p, cs) + CityBlock(p, c)
  {
    hide CityBlock;
    if cs == [] {
      assert cs + [c] == [c];
    } else {
      assert (cs + [c])[1..] == cs[1..] + [c];
      CityItemsAppend(p, cs[1..], c);
    }
  }

  lemma {:induction false} ProvinceItemsAppend(ps: seq<Province>, p: Province)
    ensures ProvinceItems(ps + [p]) == ProvinceItems(ps) + ProvinceBlock(p)
  {
    hide ProvinceBlock;
    if ps == [] {
      assert ps + [p] == [p];
    } else {
      assert (ps + [p])[1..] == ps[1..] + [p];
      ProvinceItemsAppend(ps[1..], p);
    }
  }

  /** The innermost loop: one city item and its towns. */
  method WalkCity(utf8: seq<byte> -> bool, data: seq<byte>, start: nat, p: Label)
    returns (r: Option<seq<AreaItem>>, city: Label, pos: nat)
    ensures match ReadCity(utf8, data, start)
            case Done(c, k) => r == Some(CityBlock(p, c)) && city == Label(c.code, c.name) && pos == k
            case Fail(_) => r == None
  {
    hide ReadText, ReadName, ReadTown, ReadUint;
    r, city, pos := None, Label([], []), start;
    var code := ReadText(utf8, data, pos, 3);
    if code.Fail? { return; }
    var name := ReadName(utf8, data, code.next);
    if name.Fail? { return; }
    city := Label(code.value, name.value);
    var items := [CityItem(p.code, p.name, city.code, city.name)];
    var count := ReadUint(data, name.next, 2);
    if count.Fail? { return; }
    pos := count.next;
    ghost var walked: seq<Town> := [];
    BehindNothing(ReadTowns(utf8, data, pos, count.value));
    for k := 0 to count.value
      invariant pos <= |data|
      invariant items == [CityItem(p.code, p.name, city.code, city.name)] + TownItems(p, city, walked)
      invariant ReadTowns(utf8, data, count.next, count.value)
             == Behind(walked, ReadTowns(utf8, data, pos, count.value - k))
    {
      var t := ReadTown(utf8, data, pos);
      if t.Fail? { return; }
      TownItemsAppend(p, city, walked, t.value);
      BehindStep(walked, t.value, ReadTowns(utf8, data, t.next, count.value - k - 1));
      items := items + [TownItem(p.code, p.name, city.code, city.name, t.value.code, t.value.name)];
      pos := t.next;
      walked := walked + [t.value];
    }
    assert walked + [] == walked;
    r := Some(items);
  }

  /** The middle loop: all cities, remembering the home city, and the province behind them. */
  method WalkProvince(utf8: seq<byte> -> bool, data: seq<byte>, start: nat)
    returns (r: Option<seq<AreaItem>>, pos: nat)
    ensures match ReadProvince(utf8, data, start)
            case Done(p, k) => r == Some(ProvinceBlock(p)) && pos == k
            case Fail(_) => r == None
  {
    hide ReadText, ReadName, ReadCity, ReadUint, CityBlock;
    r, pos := None, start;
    var code := ReadText(utf8, data, pos, 2);
    if code.Fail? { return; }
    var name := ReadName(utf8, data, code.next);
    if name.Fail? { return; }
    var p := Label(code.value, name.value);
    var items: seq<AreaItem> := [];
    var count := ReadUint(data, name.next, 2);
    if count.Fail? { return; }
    pos := count.next;
    var home: Option<Label> := None;
    ghost var walked: seq<City> := [];
    BehindNothing(ReadCities(utf8, data, pos, count.value));
    for k := 0 to count.value
      invariant pos <= |data| && items == CityItems(p, walked)
      invariant home == if walked == [] then None else Some(Label(Home(walked).code, Home(walked).name))
      invariant ReadCities(utf8, data, count.next, count.value)
             == Behind(walked, ReadCities(utf8, data, pos, count.value - k))
    {
      ghost var c := ReadCity(utf8, data, pos);
      var block, city, next := WalkCity(utf8, data, pos, p);
      if block == None { return; }
      if home == None || city.code == HOME_CODE { home := Some(city); }
      CityItemsAppend(p, walked, c.value);
      BehindStep(walked, c.value, ReadCities(utf8, data, next, count.value - k - 1));
      assert (walked + [c.value])[..|walked|] == walked;
      items := items + block.value;
      pos := next;
      walked := walked + [c.value];
    }
    assert walked + [] == walked;
    match home {
      case None =>
      case Some(h) => items := items + [ProvinceItem(p.code, p.name, h.code, h.name)];
    }
    r := Some(items);
  }

  /**
   `for_each_area`: the items in the order of the callbacks. `None` is a panic (index out
   of range or text that is not UTF-8). On every byte string the walk visits exactly the
   tree the layout decoder reads.
   */
  method ForEachArea(utf8: seq<byte> -> bool, data: seq<byte>) returns (r: Option<seq<AreaItem>>)
    ensures r == match ReadArea(utf8, data)
                 case Done(ps, _) => Some(ProvinceItems(ps))
                 case Fail(_) => None
  {
    hide ReadUint, ReadProvince, ProvinceBlock;
    var count := ReadUint(data, 0, 2);
    if count.Fail? { return None; }
    var pos: nat := count.next;
    var items: seq<AreaItem> := [];
    ghost var walked: seq<Province> := [];
    BehindNothing(ReadProvinces(utf8, data, pos, count.value));
    for k := 0 to count.value
      invariant pos <= |data| && items == ProvinceItems(walked)
      invariant ReadProvinces(utf8, data, count.next, count.value)
             == Behind(walked, ReadProvinces(utf8, data, pos, count.value - k))
    {
      ghost var p := ReadProvince(utf8, data, pos);
      var block, next := WalkProvince(utf8, data, pos);
      if block == None { return None; }
      ProvinceItemsAppend(walked, p.value);
      BehindStep(walked, p.value, ReadProvinces(utf8, data, next, count.value - k - 1));
      items := items + block.value;
      pos := next;
      walked := walked + [p.value];
    }
    assert walked + [] == walked;
    return Some(items);
  }
}
