/**
 The genesis script's document parsers: law, law version (chapter > section >
 article > clause) and the immutable-article manifest, with the structured documents
 they decode and the SCALE encoding of those documents.
 */
module Constitution {
  import opened Bytes
  import opened Scale

  // ----- documents -----

  type Text = seq<byte>

  datatype Clause = Clause(number: nat, text: Text, textEn: Option<Text>)
  datatype Article = Article(number: nat, title: Text, titleEn: Option<Text>,
                             body: Text, bodyEn: Option<Text>, clauses: seq<Clause>)
  datatype Section = Section(number: nat, title: Text, titleEn: Option<Text>, articles: seq<Article>)
  datatype Chapter = Chapter(number: nat, title: Text, titleEn: Option<Text>, sections: seq<Section>)
  datatype LawVersion = LawVersion(lawId: nat, version: nat, title: Text, titleEn: Option<Text>,
                                   chapters: seq<Chapter>, contentHash: seq<byte>, voteType: byte,
                                   proposalId: nat, publishedAt: nat, effectiveAt: nat)

  /** What `parse_version` keeps of a law version. */
  datatype Version = Version(lawId: nat, version: nat, articles: map<nat, seq<byte>>,
                             publishedAt: nat, effectiveAt: nat)

  predicate U32Sized(n: nat) { n < Pow256(4) }
  predicate U64Sized(n: nat) { n < Pow256(8) }
  predicate TextSized(t: Text) { CompactSized(|t|) }
  predicate OptTextSized(t: Option<Text>) { t.Some? ==> CompactSized(|t.value|) }

  predicate ClauseSized(c: Clause) { U32Sized(c.number) && TextSized(c.text) && OptTextSized(c.textEn) }
  predicate ArticleSized(a: Article) {
    && U32Sized(a.number) && TextSized(a.title) && OptTextSized(a.titleEn)
    && TextSized(a.body) && OptTextSized(a.bodyEn)
    && CompactSized(|a.clauses|) && forall c | c in a.clauses :: ClauseSized(c)
  }
  predicate SectionSized(s: Section) {
    && U32Sized(s.number) && TextSized(s.title) && OptTextSized(s.titleEn)
    && CompactSized(|s.articles|) && forall a | a in s.articles :: ArticleSized(a)
  }
  predicate ChapterSized(c: Chapter) {
    && U32Sized(c.number) && TextSized(c.title) && OptTextSized(c.titleEn)
    && CompactSized(|c.sections|) && forall s | s in c.sections :: SectionSized(s)
  }
  /** Every number fits its SCALE integer type and every length fits a compact integer. */
  predicate VersionSized(v: LawVersion) {
    && U64Sized(v.lawId) && U32Sized(v.version) && TextSized(v.title) && OptTextSized(v.titleEn)
    && CompactSized(|v.chapters|) && (forall c | c in v.chapters :: ChapterSized(c))
    && |v.contentHash| == 32
    && U64Sized(v.proposalId) && U64Sized(v.publishedAt) && U64Sized(v.effectiveAt)
  }

  // ----- SCALE encoding of the documents -----

  /** What articles, sections, chapters and versions start with. */
  function EncodeHeading(number: nat, title: Text, titleEn: Option<Text>): (e: seq<byte>)
    requires TextSized(title) && OptTextSized(titleEn)
  {
    ToLE(number, 4) + (EncodeVec(title) + EncodeOptVec(titleEn))
  }

  function EncodeClause(c: Clause): (e: seq<byte>)
    requires ClauseSized(c)
  {
    EncodeHeading(c.number, c.text, c.textEn)
  }

  function EncodeClauses(cs: seq<Clause>): (e: seq<byte>)
    requires forall c | c in cs :: ClauseSized(c)
  {
    if cs == [] then [] else EncodeClause(cs[0]) + EncodeClauses(cs[1..])
  }

  function EncodeArticle(a: Article): (e: seq<byte>)
    requires ArticleSized(a)
  {
    EncodeHeading(a.number, a.title, a.titleEn) + EncodeArticleBody(a)
  }

  function EncodeArticleBody(a: Article): (e: seq<byte>)
    requires ArticleSized(a)
  {
    EncodeVec(a.body) + (EncodeOptVec(a.bodyEn)
    + (EncodeCompact(|a.clauses|) + EncodeClauses(a.clauses)))
  }

  function EncodeArticles(xs: seq<Article>): (e: seq<byte>)
    requires forall a | a in xs :: ArticleSized(a)
  {
    if xs == [] then [] else EncodeArticle(xs[0]) + EncodeArticles(xs[1..])
  }

  function EncodeSection(s: Section): (e: seq<byte>)
    requires SectionSized(s)
  {
    EncodeHeading(s.number, s.title, s.titleEn)
    + (EncodeCompact(|s.articles|) + EncodeArticles(s.articles))
  }

  function EncodeSections(xs: seq<Section>): (e: seq<byte>)
    requires forall s | s in xs :: SectionSized(s)
  {
    if xs == [] then [] else EncodeSection(xs[0]) + EncodeSections(xs[1..])
  }

  function EncodeChapter(c: Chapter): (e: seq<byte>)
    requires ChapterSized(c)
  {
    EncodeHeading(c.number, c.title, c.titleEn)
    + (EncodeCompact(|c.sections|) + EncodeSections(c.sections))
  }

  function EncodeChapters(xs: seq<Chapter>): (e: seq<byte>)
    requires forall c | c in xs :: ChapterSized(c)
  {
    if xs == [] then [] else EncodeChapter(xs[0]) + EncodeChapters(xs[1..])
  }

  function EncodeVersion(v: LawVersion): (e: seq<byte>)
    requires VersionSized(v)
  {
    ToLE(v.lawId, 8) + (EncodeHeading(v.version, v.title, v.titleEn)
    + (EncodeCompact(|v.chapters|) + (EncodeChapters(v.chapters) + EncodeVersionTail(v))))
  }

  function EncodeVersionTail(v: LawVersion): (e: seq<byte>)
    requires VersionSized(v)
  {
    v.contentHash + ([v.voteType] + (ToLE(v.proposalId, 8)
    + (ToLE(v.publishedAt, 8) + ToLE(v.effectiveAt, 8))))
  }

  // ----- what the parsers read at an offset -----

  function ReadClause(d: seq<byte>, i: nat): (r: Step<()>)
    ensures r.Done? ==> i + 6 <= r.next <= |d|
  {
    var (_, j) :- ReadUint(d, i, 4);
    var (_, k) :- ReadVec(d, j);
    var (_, l) :- ReadOptVec(d, k);
    Done((), l)
  }

  function ReadClauses(d: seq<byte>, i: nat, n: nat): (r: Step<()>)
    requires i <= |d|
    ensures r.Done? ==> i + 6 * n <= r.next <= |d|
    decreases n
  {
    if n == 0 then Done((), i)
    else
      var (_, j) :- ReadClause(d, i);
      ReadClauses(d, j, n - 1)
  }

  /** The article number and the article's own bytes. */
  function ReadArticle(d: seq<byte>, i: nat): (r: Step<(nat, seq<byte>)>)
    ensures r.Done? ==> i + 9 <= r.next <= |d| && r.value.1 == d[i..r.next]
  {
    var (number, i1) :- ReadUint(d, i, 4);
    var (_, i2) :- ReadVec(d, i1);
    var (_, i3) :- ReadOptVec(d, i2);
    var (_, i4) :- ReadVec(d, i3);
    var (_, i5) :- ReadOptVec(d, i4);
    var (n, i6) :- ReadCompact(d, i5);
    var (_, i7) :- ReadClauses(d, i6, n);
    Done((number, d[i..i7]), i7)
  }

  /** Every entry is the complete encoding of one article carrying its key as number. */
  predicate SelfContained(m: map<nat, seq<byte>>) {
    forall n | n in m :: ReadArticle(m[n], 0) == Done((n, m[n]), |m[n]|)
  }

  function ReadArticles(d: seq<byte>, i: nat, n: nat, m: map<nat, seq<byte>>)
    : (r: Step<map<nat, seq<byte>>>)
    requires i <= |d|
    ensures r.Done? ==> i <= r.next <= |d| && 9 * |r.value| + i <= 9 * |m| + r.next
    ensures r.Done? && SelfContained(m) ==> SelfContained(r.value)
    decreases n
  {
    if n == 0 then Done(m, i)
    else
      var (a, j) :- ReadArticle(d, i);
      if a.0 in m then Fail(DuplicateArticle)
      else
        ArticleStandsAlone(d, i);
        ReadArticles(d, j, n - 1, m[a.0 := a.1])
  }

  function ReadSection(d: seq<byte>, i: nat, m: map<nat, seq<byte>>, seen: set<nat>)
    : (r: Step<(map<nat, seq<byte>>, set<nat>)>)
    ensures r.Done? ==> i < r.next <= |d| && 9 * |r.value.0| + i <= 9 * |m| + r.next
    ensures r.Done? && SelfContained(m) ==> SelfContained(r.value.0)
  {
    var (number, i1) :- ReadUint(d, i, 4);
    if number in seen then Fail(DuplicateSection)
    else
      var (_, i2) :- ReadVec(d, i1);
      var (_, i3) :- ReadOptVec(d, i2);
      var (n, i4) :- ReadCompact(d, i3);
      var (m', i5) :- ReadArticles(d, i4, n, m);
      Done((m', seen + {number}), i5)
  }

  function ReadSections(d: seq<byte>, i: nat, n: nat, m: map<nat, seq<byte>>, seen: set<nat>)
    : (r: Step<(map<nat, seq<byte>>, set<nat>)>)
    requires i <= |d|
    ensures r.Done? ==> i <= r.next <= |d| && 9 * |r.value.0| + i <= 9 * |m| + r.next
    ensures r.Done? && SelfContained(m) ==> SelfContained(r.value.0)
    decreases n
  {
    if n == 0 then Done((m, seen), i)
    else
      var (p, j) :- ReadSection(d, i, m, seen);
      ReadSections(d, j, n - 1, p.0, p.1)
  }

  function ReadChapter(d: seq<byte>, i: nat, m: map<nat, seq<byte>>, seen: set<nat>)
    : (r: Step<(map<nat, seq<byte>>, set<nat>)>)
    ensures r.Done? ==> i < r.next <= |d| && 9 * |r.value.0| + i <= 9 * |m| + r.next
    ensures r.Done? && SelfContained(m) ==> SelfContained(r.value.0)
  {
    var (number, i1) :- ReadUint(d, i, 4);
    if number in seen then Fail(DuplicateChapter)
    else
      var (_, i2) :- ReadVec(d, i1);
      var (_, i3) :- ReadOptVec(d, i2);
      var (n, i4) :- ReadCompact(d, i3);
      var (p, i5) :- ReadSections(d, i4, n, m, {});
      Done((p.0, seen + {number}), i5)
  }

  function ReadChapters(d: seq<byte>, i: nat, n: nat, m: map<nat, seq<byte>>, seen: set<nat>)
    : (r: Step<(map<nat, seq<byte>>, set<nat>)>)
    requires i <= |d|
    ensures r.Done? ==> i <= r.next <= |d| && 9 * |r.value.0| + i <= 9 * |m| + r.next
    ensures r.Done? && SelfContained(m) ==> SelfContained(r.value.0)
    decreases n
  {
    if n == 0 then Done((m, seen), i)
    else
      var (p, j) :- ReadChapter(d, i, m, seen);
      ReadChapters(d, j, n - 1, p.0, p.1)
  }

  /** What follows the chapters: digest, vote, proposal, and the two times that are kept. */
  function ReadVersionTail(d: seq<byte>, i: nat): (r: Step<(nat, nat)>)
    ensures r.Done? ==> r.next == i + 57 <= |d|
  {
    var (_, i1) :- ReadRaw(d, i, 32);
    var (_, i2) :- ReadU8(d, i1);
    var (_, i3) :- ReadUint(d, i2, 8);
    var (publishedAt, i4) :- ReadUint(d, i3, 8);
    var (effectiveAt, i5) :- ReadUint(d, i4, 8);
    Done((publishedAt, effectiveAt), i5)
  }

  /** `parse_version`: it does not ask for the data to end behind the version. */
  function ReadVersion(d: seq<byte>, i: nat): (r: Step<Version>)
    ensures r.Done? ==> i < r.next <= |d| && i + 9 * |r.value.articles| <= r.next
    ensures r.Done? ==> SelfContained(r.value.articles)
  {
    var (lawId, i1) :- ReadUint(d, i, 8);
    var (version, i2) :- ReadUint(d, i1, 4);
    var (_, i3) :- ReadVec(d, i2);
    var (_, i4) :- ReadOptVec(d, i3);
    var (n, i5) :- ReadCompact(d, i4);
    var (p, i6) :- ReadChapters(d, i5, n, map[], {});
    var (times, i7) :- ReadVersionTail(d, i6);
    Done(Version(lawId, version, p.0, times.0, times.1), i7)
  }

  // ----- a successful parse depends only on the bytes it consumed -----

  lemma ClauseLocal(d: seq<byte>, i: nat, d': seq<byte>, j: nat)
    requires ReadClause(d, i).Done? && Copied(d, i, ReadClause(d, i).next, d', j)
    ensures ReadClause(d', j) == Done((), j + (ReadClause(d, i).next - i))
  {
    hide Copied, At, ReadVec, ReadOptVec, ReadUint, ReadCompact;
    var k := ReadClause(d, i).next;
    var i1 := i + 4;
    var i2 := ReadVec(d, i1).next;
    CopiedSplit(d, i, i1, k, d', j);
    CopiedSplit(d, i1, i2, k, d', j + 4);
    UintLocal(d, i, 4, d', j);
    VecLocal(d, i1, d', j + 4);
    OptVecLocal(d, i2, d', j + (i2 - i));
  }

  lemma {:induction false} ClausesLocal(d: seq<byte>, i: nat, n: nat, d': seq<byte>, j: nat)
    requires i <= |d| && j <= |d'|
    requires ReadClauses(d, i, n).Done? && Copied(d, i, ReadClauses(d, i, n).next, d', j)
    ensures ReadClauses(d', j, n) == Done((), j + (ReadClauses(d, i, n).next - i))
    decreases n
  {
    hide Copied, At, ReadVec, ReadOptVec, ReadUint, ReadCompact, ReadClause;
    if n > 0 {
      var m := ReadClause(d, i).next;
      CopiedSplit(d, i, m, ReadClauses(d, i, n).next, d', j);
      ClauseLocal(d, i, d', j);
      ClausesLocal(d, m, n - 1, d', j + (m - i));
    }
  }

  lemma ArticleLocal(d: seq<byte>, i: nat, d': seq<byte>, j: nat)
    requires ReadArticle(d, i).Done? && Copied(d, i, ReadArticle(d, i).next, d', j)
    ensures ReadArticle(d', j) == Done(ReadArticle(d, i).value, j + (ReadArticle(d, i).next - i))
  {
    hide Copied, At, ReadVec, ReadOptVec, ReadUint, ReadCompact, ReadClauses;
    var k := ReadArticle(d, i).next;
    var i1 := i + 4;
    var i2 := ReadVec(d, i1).next;
    var i3 := ReadOptVec(d, i2).next;
    var i4 := ReadVec(d, i3).next;
    var i5 := ReadOptVec(d, i4).next;
    var i6 := ReadCompact(d, i5).next;
    CopiedSplit(d, i, i1, k, d', j);
    CopiedSplit(d, i1, i2, k, d', j + (i1 - i));
    CopiedSplit(d, i2, i3, k, d', j + (i2 - i));
    CopiedSplit(d, i3, i4, k, d', j + (i3 - i));
    CopiedSplit(d, i4, i5, k, d', j + (i4 - i));
    CopiedSplit(d, i5, i6, k, d', j + (i5 - i));
    UintLocal(d, i, 4, d', j);
    VecLocal(d, i1, d', j + (i1 - i));
    OptVecLocal(d, i2, d', j + (i2 - i));
    VecLocal(d, i3, d', j + (i3 - i));
    OptVecLocal(d, i4, d', j + (i4 - i));
    CompactLocal(d, i5, d', j + (i5 - i));
    ClausesLocal(d, i6, ReadCompact(d, i5).value, d', j + (i6 - i));
    CopiedSlice(d, i, k, d', j);
  }

  /** The bytes stored for an article parse, on their own, to that article and nothing else. */
  lemma ArticleStandsAlone(d: seq<byte>, i: nat)
    requires ReadArticle(d, i).Done?
    ensures var r := ReadArticle(d, i); ReadArticle(r.value.1, 0) == Done(r.value, |r.value.1|)
  {
    var r := ReadArticle(d, i);
    assert r.value.1[0..|r.value.1|] == d[i..r.next];
    ArticleLocal(d, i, r.value.1, 0);
  }

  lemma {:induction false} ArticlesLocal(d: seq<byte>, i: nat, n: nat, m: map<nat, seq<byte>>,
                                         d': seq<byte>, j: nat)
    requires i <= |d| && j <= |d'|
    requires ReadArticles(d, i, n, m).Done? && Copied(d, i, ReadArticles(d, i, n, m).next, d', j)
    ensures ReadArticles(d', j, n, m)
         == Done(ReadArticles(d, i, n, m).value, j + (ReadArticles(d, i, n, m).next - i))
    decreases n
  {
    hide Copied, At, ReadVec, ReadOptVec, ReadUint, ReadCompact, ReadArticle, SelfContained;
    if n > 0 {
      var a := ReadArticle(d, i);
      CopiedSplit(d, i, a.next, ReadArticles(d, i, n, m).next, d', j);
      ArticleLocal(d, i, d', j);
      ArticlesLocal(d, a.next, n - 1, m[a.value.0 := a.value.1], d', j + (a.next - i));
    }
  }

  lemma SectionLocal(d: seq<byte>, i: nat, m: map<nat, seq<byte>>, seen: set<nat>,
                     d': seq<byte>, j: nat)
    requires ReadSection(d, i, m, seen).Done? && Copied(d, i, ReadSection(d, i, m, seen).next, d', j)
    ensures ReadSection(d', j, m, seen)
         == Done(ReadSection(d, i, m, seen).value, j + (ReadSection(d, i, m, seen).next - i))
  {
    hide Copied, At, ReadVec, ReadOptVec, ReadUint, ReadCompact, ReadArticles, SelfContained;
    var k := ReadSection(d, i, m, seen).next;
    var i1 := i + 4;
    var i2 := ReadVec(d, i1).next;
    var i3 := ReadOptVec(d, i2).next;
    var i4 := ReadCompact(d, i3).next;
    CopiedSplit(d, i, i1, k, d', j);
    CopiedSplit(d, i1, i2, k, d', j + (i1 - i));
    CopiedSplit(d, i2, i3, k, d', j + (i2 - i));
    CopiedSplit(d, i3, i4, k, d', j + (i3 - i));
    UintLocal(d, i, 4, d', j);
    VecLocal(d, i1, d', j + (i1 - i));
    OptVecLocal(d, i2, d', j + (i2 - i));
    CompactLocal(d, i3, d', j + (i3 - i));
    ArticlesLocal(d, i4, ReadCompact(d, i3).value, m, d', j + (i4 - i));
  }

  lemma {:induction false} SectionsLocal(d: seq<byte>, i: nat, n: nat, m: map<nat, seq<byte>>,
                                         seen: set<nat>, d': seq<byte>, j: nat)
    requires i <= |d| && j <= |d'|
    requires ReadSections(d, i, n, m, seen).Done?
    requires Copied(d, i, ReadSections(d, i, n, m, seen).next, d', j)
    ensures ReadSections(d', j, n, m, seen)
         == Done(ReadSections(d, i, n, m, seen).value, j + (ReadSections(d, i, n, m, seen).next - i))
    decreases n
  {
    hide Copied, At, ReadVec, ReadOptVec, ReadUint, ReadCompact, ReadSection, SelfContained;
    if n > 0 {
      var p := ReadSection(d, i, m, seen);
      CopiedSplit(d, i, p.next, ReadSections(d, i, n, m, seen).next, d', j);
      SectionLocal(d, i, m, seen, d', j);
      SectionsLocal(d, p.next, n - 1, p.value.0, p.value.1, d', j + (p.next - i));
    }
  }

  lemma ChapterLocal(d: seq<byte>, i: nat, m: map<nat, seq<byte>>, seen: set<nat>,
                     d': seq<byte>, j: nat)
    requires ReadChapter(d, i, m, seen).Done? && Copied(d, i, ReadChapter(d, i, m, seen).next, d', j)
    ensures ReadChapter(d', j, m, seen)
         == Done(ReadChapter(d, i, m, seen).value, j + (ReadChapter(d, i, m, seen).next - i))
  {
    hide Copied, At, ReadVec, ReadOptVec, ReadUint, ReadCompact, ReadSections, SelfContained;
    var k := ReadChapter(d, i, m, seen).next;
    var i1 := i + 4;
    var i2 := ReadVec(d, i1).next;
    var i3 := ReadOptVec(d, i2).next;
    var i4 := ReadCompact(d, i3).next;
    CopiedSplit(d, i, i1, k, d', j);
    CopiedSplit(d, i1, i2, k, d', j + (i1 - i));
    CopiedSplit(d, i2, i3, k, d', j + (i2 - i));
    CopiedSplit(d, i3, i4, k, d', j + (i3 - i));
    UintLocal(d, i, 4, d', j);
    VecLocal(d, i1, d', j + (i1 - i));
    OptVecLocal(d, i2, d', j + (i2 - i));
    CompactLocal(d, i3, d', j + (i3 - i));
    SectionsLocal(d, i4, ReadCompact(d, i3).value, m, {}, d', j + (i4 - i));
  }

  lemma {:induction false} ChaptersLocal(d: seq<byte>, i: nat, n: nat, m: map<nat, seq<byte>>,
                                         seen: set<nat>, d': seq<byte>, j: nat)
    requires i <= |d| && j <= |d'|
    requires ReadChapters(d, i, n, m, seen).Done?
    requires Copied(d, i, ReadChapters(d, i, n, m, seen).next, d', j)
    ensures ReadChapters(d', j, n, m, seen)
         == Done(ReadChapters(d, i, n, m, seen).value, j + (ReadChapters(d, i, n, m, seen).next - i))
    decreases n
  {
    hide Copied, At, ReadVec, ReadOptVec, ReadUint, ReadCompact, ReadChapter, SelfContained;
    if n > 0 {
      var p := ReadChapter(d, i, m, seen);
      CopiedSplit(d, i, p.next, ReadChapters(d, i, n, m, seen).next, d', j);
      ChapterLocal(d, i, m, seen, d', j);
      ChaptersLocal(d, p.next, n - 1, p.value.0, p.value.1, d', j + (p.next - i));
    }
  }

  /** The consumed bytes, moved anywhere, parse to the same version. */
  lemma VersionLocal(d: seq<byte>, i: nat, d': seq<byte>, j: nat)
    requires ReadVersion(d, i).Done? && Copied(d, i, ReadVersion(d, i).next, d', j)
    ensures ReadVersion(d', j) == Done(ReadVersion(d, i).value, j + (ReadVersion(d, i).next - i))
  {
    hide Copied, At, ReadVec, ReadOptVec, ReadUint, ReadCompact, ReadChapters, ReadVersionTail, SelfContained;
    var k := ReadVersion(d, i).next;
    var i3 := ReadVec(d, i + 12).next;
    var i4 := ReadOptVec(d, i3).next;
    var i5 := ReadCompact(d, i4).next;
    var n := ReadCompact(d, i4).value;
    var i6 := ReadChapters(d, i5, n, map[], {}).next;
    CopiedSplit(d, i, i + 8, k, d', j);
    CopiedSplit(d, i + 8, i + 12, k, d', j + 8);
    CopiedSplit(d, i + 12, i3, k, d', j + 12);
    CopiedSplit(d, i3, i4, k, d', j + (i3 - i));
    CopiedSplit(d, i4, i5, k, d', j + (i4 - i));
    CopiedSplit(d, i5, i6, k, d', j + (i5 - i));
    VersionTailLocal(d, i6, d', j + (i6 - i));
    UintLocal(d, i, 8, d', j);
    UintLocal(d, i + 8, 4, d', j + 8);
    VecLocal(d, i + 12, d', j + 12);
    OptVecLocal(d, i3, d', j + (i3 - i));
    CompactLocal(d, i4, d', j + (i4 - i));
    ChaptersLocal(d, i5, n, map[], {}, d', j + (i5 - i));
  }

  lemma VersionTailLocal(d: seq<byte>, i: nat, d': seq<byte>, j: nat)
    requires ReadVersionTail(d, i).Done? && Copied(d, i, i + 57, d', j)
    ensures ReadVersionTail(d', j) == Done(ReadVersionTail(d, i).value, j + 57)
  {
    hide Copied, ReadUint;
    CopiedSplit(d, i, i + 32, i + 57, d', j);
    CopiedSplit(d, i + 32, i + 33, i + 57, d', j + 32);
    CopiedSplit(d, i + 33, i + 41, i + 57, d', j + 33);
    CopiedSplit(d, i + 41, i + 49, i + 57, d', j + 41);
    RawLocal(d, i, 32, d', j);
    U8Local(d, i + 32, d', j + 32);
    UintLocal(d, i + 33, 8, d', j + 33);
    UintLocal(d, i + 41, 8, d', j + 41);
    UintLocal(d, i + 49, 8, d', j + 49);
  }

  /** Success on `raw` gives the same result on `raw` followed by anything. */
  lemma VersionPrefixStable(raw: seq<byte>, suffix: seq<byte>)
    requires ReadVersion(raw, 0).Done?
    ensures ReadVersion(raw + suffix, 0) == ReadVersion(raw, 0)
  {
    var k := ReadVersion(raw, 0).next;
    assert (raw + suffix)[0..k] == raw[0..k];
    VersionLocal(raw, 0, raw + suffix, 0);
  }
}
