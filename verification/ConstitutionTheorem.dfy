/**
 When does `parse_version` accept the encoding of a law version, and what does it return?
 The answer goes through a reading of the document itself (`Admit...`), which never looks
 at bytes, and from there to plain uniqueness of the three kinds of numbers.
 */
module ConstitutionTheorem {
  import opened Bytes
  import opened Scale
  import opened Constitution

  // ----- reading the document in order, number by number -----

  function AdmitArticles(xs: seq<Article>, m: map<nat, seq<byte>>): (r: Result<map<nat, seq<byte>>>)
    requires forall a | a in xs :: ArticleSized(a)
  {
    if xs == [] then Ok(m)
    else if xs[0].number in m then Error(DuplicateArticle)
    else AdmitArticles(xs[1..], m[xs[0].number := EncodeArticle(xs[0])])
  }

  function AdmitSections(xs: seq<Section>, m: map<nat, seq<byte>>, seen: set<nat>)
    : (r: Result<(map<nat, seq<byte>>, set<nat>)>)
    requires forall s | s in xs :: SectionSized(s)
  {
    if xs == [] then Ok((m, seen))
    else if xs[0].number in seen then Error(DuplicateSection)
    else
      assert SectionSized(xs[0]);
      var m' :- AdmitArticles(xs[0].articles, m);
      AdmitSections(xs[1..], m', seen + {xs[0].number})
  }

  function AdmitChapters(xs: seq<Chapter>, m: map<nat, seq<byte>>, seen: set<nat>)
    : (r: Result<(map<nat, seq<byte>>, set<nat>)>)
    requires forall c | c in xs :: ChapterSized(c)
  {
    if xs == [] then Ok((m, seen))
    else if xs[0].number in seen then Error(DuplicateChapter)
    else
      assert ChapterSized(xs[0]);
      var p :- AdmitSections(xs[0].sections, m, {});
      AdmitChapters(xs[1..], p.0, seen + {xs[0].number})
  }

  // ----- parsing an encoding is admitting the document -----

  /** The parse that delivers `r` and stops at `next`. */
  function Deliver<T>(r: Result<T>, next: nat): Step<T> {
    match r
    case Ok(v) => Done(v, next)
    case Error(e) => Fail(e)
  }

  /** The part all levels start with: number, title, optional English title. */
  lemma HeadingRoundTrip(number: nat, title: Text, titleEn: Option<Text>, d: seq<byte>, i: nat)
    requires U32Sized(number) && TextSized(title) && OptTextSized(titleEn)
    requires At(d, i, EncodeHeading(number, title, titleEn))
    ensures ReadUint(d, i, 4) == Done(number, i + 4)
    ensures var r := ReadVec(d, i + 4);
            r.Done? && ReadOptVec(d, r.next) == Done(titleEn, i + |EncodeHeading(number, title, titleEn)|)
  {
    hide At, ReadVec, ReadOptVec, ReadUint, EncodeVec, EncodeOptVec, ToLE;
    AtSplit(d, i, ToLE(number, 4), EncodeVec(title) + EncodeOptVec(titleEn));
    AtSplit(d, i + 4, EncodeVec(title), EncodeOptVec(titleEn));
    UintRoundTrip(number, 4, d, i);
    VecRoundTrip(title, d, i + 4);
    OptVecRoundTrip(titleEn, d, i + 4 + |EncodeVec(title)|);
  }

  lemma ClauseRoundTrip(c: Clause, d: seq<byte>, i: nat)
    requires ClauseSized(c) && At(d, i, EncodeClause(c))
    ensures ReadClause(d, i) == Done((), i + |EncodeClause(c)|)
  {
    hide At, ReadVec, ReadOptVec, ReadUint, EncodeHeading;
    HeadingRoundTrip(c.number, c.text, c.textEn, d, i);
  }

  lemma {:induction false} ClausesRoundTrip(cs: seq<Clause>, d: seq<byte>, i: nat)
    requires i <= |d| && (forall c | c in cs :: ClauseSized(c)) && At(d, i, EncodeClauses(cs))
    ensures ReadClauses(d, i, |cs|) == Done((), i + |EncodeClauses(cs)|)
  {
    hide At, ReadClause, EncodeClause;
    if cs != [] {
      AtSplit(d, i, EncodeClause(cs[0]), EncodeClauses(cs[1..]));
      ClauseRoundTrip(cs[0], d, i);
      ClausesRoundTrip(cs[1..], d, i + |EncodeClause(cs[0])|);
    }
  }

  /** A counted list: the compact length, then `body`. */
  lemma CountRoundTrip(n: nat, body: seq<byte>, d: seq<byte>, i: nat)
    requires CompactSized(n) && At(d, i, EncodeCompact(n) + body)
    ensures ReadCompact(d, i) == Done(n, i + |EncodeCompact(n)|)
    ensures At(d, i + |EncodeCompact(n)|, body)
  {
    hide At, ReadCompact, EncodeCompact;
    AtSplit(d, i, EncodeCompact(n), body);
    CompactRoundTrip(n, d, i);
  }

  lemma ArticleBodyRoundTrip(a: Article, d: seq<byte>, i: nat)
    requires ArticleSized(a) && At(d, i, EncodeArticleBody(a))
    ensures var r := ReadVec(d, i);
            && r.Done?
            && var q := ReadOptVec(d, r.next);
               && q.Done?
               && var n := ReadCompact(d, q.next);
                  n.Done? && ReadClauses(d, n.next, n.value) == Done((), i + |EncodeArticleBody(a)|)
  {
    hide At, ReadVec, ReadOptVec, ReadCompact, ReadClauses, ClauseSized;
    hide EncodeVec, EncodeOptVec, EncodeCompact, EncodeClauses;
    var list := EncodeCompact(|a.clauses|) + EncodeClauses(a.clauses);
    var j := i + |EncodeVec(a.body)|;
    var k := j + |EncodeOptVec(a.bodyEn)|;
    AtSplit(d, i, EncodeVec(a.body), EncodeOptVec(a.bodyEn) + list);
    VecRoundTrip(a.body, d, i);
    AtSplit(d, j, EncodeOptVec(a.bodyEn), list);
    OptVecRoundTrip(a.bodyEn, d, j);
    CountRoundTrip(|a.clauses|, EncodeClauses(a.clauses), d, k);
    ClausesRoundTrip(a.clauses, d, k + |EncodeCompact(|a.clauses|)|);
  }

  lemma ArticleRoundTrip(a: Article, d: seq<byte>, i: nat)
    requires ArticleSized(a) && At(d, i, EncodeArticle(a))
    ensures ReadArticle(d, i) == Done((a.number, EncodeArticle(a)), i + |EncodeArticle(a)|)
  {
    hide At, ReadVec, ReadOptVec, ReadUint, ReadCompact, ReadClauses, EncodeHeading, EncodeArticleBody;
    AtSlice(d, i, EncodeArticle(a));
    AtSplit(d, i, EncodeHeading(a.number, a.title, a.titleEn), EncodeArticleBody(a));
    HeadingRoundTrip(a.number, a.title, a.titleEn, d, i);
    ArticleBodyRoundTrip(a, d, i + |EncodeHeading(a.number, a.title, a.titleEn)|);
  }

  lemma AtSlice(d: seq<byte>, i: nat, e: seq<byte>)
    requires At(d, i, e)
    ensures i + |e| <= |d| && d[i..i + |e|] == e
  {}

  lemma {:induction false} ArticlesRoundTrip(xs: seq<Article>, m: map<nat, seq<byte>>, d: seq<byte>, i: nat)
    requires i <= |d| && (forall a | a in xs :: ArticleSized(a)) && At(d, i, EncodeArticles(xs))
    ensures ReadArticles(d, i, |xs|, m) == Deliver(AdmitArticles(xs, m), i + |EncodeArticles(xs)|)
    decreases |xs|
  {
    hide At, ReadArticle, EncodeArticle, ArticleSized, SelfContained;
    if xs != [] {
      AtSplit(d, i, EncodeArticle(xs[0]), EncodeArticles(xs[1..]));
      ArticleRoundTrip(xs[0], d, i);
      if xs[0].number !in m {
        ArticlesRoundTrip(xs[1..], m[xs[0].number := EncodeArticle(xs[0])], d, i + |EncodeArticle(xs[0])|);
      }
    }
  }

  lemma SectionRoundTrip(s: Section, m: map<nat, seq<byte>>, seen: set<nat>, d: seq<byte>, i: nat)
    requires SectionSized(s) && At(d, i, EncodeSection(s))
    ensures s.number in seen ==> ReadSection(d, i, m, seen) == Fail(DuplicateSection)
    ensures s.number !in seen ==>
              match AdmitArticles(s.articles, m)
              case Ok(m') => ReadSection(d, i, m, seen) == Done((m', seen + {s.number}), i + |EncodeSection(s)|)
              case Error(e) => ReadSection(d, i, m, seen) == Fail(e)
  {
    hide At, ReadVec, ReadOptVec, ReadUint, ReadCompact, ReadArticles, SelfContained;
    hide EncodeHeading, EncodeCompact, EncodeArticles, AdmitArticles, ArticleSized;
    var list := EncodeCompact(|s.articles|) + EncodeArticles(s.articles);
    var k := i + |EncodeHeading(s.number, s.title, s.titleEn)|;
    AtSplit(d, i, EncodeHeading(s.number, s.title, s.titleEn), list);
    HeadingRoundTrip(s.number, s.title, s.titleEn, d, i);
    CountRoundTrip(|s.articles|, EncodeArticles(s.articles), d, k);
    ArticlesRoundTrip(s.articles, m, d, k + |EncodeCompact(|s.articles|)|);
  }

  lemma {:induction false} SectionsRoundTrip(xs: seq<Section>, m: map<nat, seq<byte>>, seen: set<nat>,
                                             d: seq<byte>, i: nat)
    requires i <= |d| && (forall s | s in xs :: SectionSized(s)) && At(d, i, EncodeSections(xs))
    ensures ReadSections(d, i, |xs|, m, seen)
         == Deliver(AdmitSections(xs, m, seen), i + |EncodeSections(xs)|)
    decreases |xs|
  {
    hide At, ReadSection, EncodeSection, ArticleSized, AdmitArticles, SelfContained;
    if xs != [] {
      assert SectionSized(xs[0]);
      AtSplit(d, i, EncodeSection(xs[0]), EncodeSections(xs[1..]));
      SectionRoundTrip(xs[0], m, seen, d, i);
      if xs[0].number !in seen && AdmitArticles(xs[0].articles, m).Ok? {
        SectionsRoundTrip(xs[1..], AdmitArticles(xs[0].articles, m).value, seen + {xs[0].number},
                          d, i + |EncodeSection(xs[0])|);
      }
    }
  }

  lemma ChapterRoundTrip(c: Chapter, m: map<nat, seq<byte>>, seen: set<nat>, d: seq<byte>, i: nat)
    requires ChapterSized(c) && At(d, i, EncodeChapter(c))
    ensures c.number in seen ==> ReadChapter(d, i, m, seen) == Fail(DuplicateChapter)
    ensures c.number !in seen ==>
              match AdmitSections(c.sections, m, {})
              case Ok(p) => ReadChapter(d, i, m, seen) == Done((p.0, seen + {c.number}), i + |EncodeChapter(c)|)
              case Error(e) => ReadChapter(d, i, m, seen) == Fail(e)
  {
    hide At, ReadVec, ReadOptVec, ReadUint, ReadCompact, ReadSections, SelfContained;
    hide EncodeHeading, EncodeCompact, EncodeSections, AdmitSections, SectionSized;
    var list := EncodeCompact(|c.sections|) + EncodeSections(c.sections);
    var k := i + |EncodeHeading(c.number, c.title, c.titleEn)|;
    AtSplit(d, i, EncodeHeading(c.number, c.title, c.titleEn), list);
    HeadingRoundTrip(c.number, c.title, c.titleEn, d, i);
    CountRoundTrip(|c.sections|, EncodeSections(c.sections), d, k);
    SectionsRoundTrip(c.sections, m, {}, d, k + |EncodeCompact(|c.sections|)|);
  }

  lemma {:induction false} ChaptersRoundTrip(xs: seq<Chapter>, m: map<nat, seq<byte>>, seen: set<nat>,
                                             d: seq<byte>, i: nat)
    requires i <= |d| && (forall c | c in xs :: ChapterSized(c)) && At(d, i, EncodeChapters(xs))
    ensures ReadChapters(d, i, |xs|, m, seen)
         == Deliver(AdmitChapters(xs, m, seen), i + |EncodeChapters(xs)|)
    decreases |xs|
  {
    hide At, ReadChapter, EncodeChapter, SectionSized, AdmitSections, SelfContained;
    if xs != [] {
      assert ChapterSized(xs[0]);
      AtSplit(d, i, EncodeChapter(xs[0]), EncodeChapters(xs[1..]));
      ChapterRoundTrip(xs[0], m, seen, d, i);
      if xs[0].number !in seen && AdmitSections(xs[0].sections, m, {}).Ok? {
        ChaptersRoundTrip(xs[1..], AdmitSections(xs[0].sections, m, {}).value.0, seen + {xs[0].number},
                          d, i + |EncodeChapter(xs[0])|);
      }
    }
  }

  lemma VersionTailRoundTrip(v: LawVersion, d: seq<byte>, i: nat)
    requires VersionSized(v) && At(d, i, EncodeVersionTail(v))
    ensures |EncodeVersionTail(v)| == 57
    ensures ReadVersionTail(d, i) == Done((v.publishedAt, v.effectiveAt), i + 57)
  {
    hide ReadUint, ReadU8, ToLE;
    var t3 := ToLE(v.publishedAt, 8) + ToLE(v.effectiveAt, 8);
    var t2 := ToLE(v.proposalId, 8) + t3;
    AtSplit(d, i, v.contentHash, [v.voteType] + t2);
    AtSplit(d, i + 32, [v.voteType], t2);
    AtSplit(d, i + 33, ToLE(v.proposalId, 8), t3);
    AtSplit(d, i + 41, ToLE(v.publishedAt, 8), ToLE(v.effectiveAt, 8));
    U8RoundTrip(v.voteType, d, i + 32);
    UintRoundTrip(v.proposalId, 8, d, i + 33);
    UintRoundTrip(v.publishedAt, 8, d, i + 41);
    UintRoundTrip(v.effectiveAt, 8, d, i + 49);
  }

  lemma VersionRoundTrip(v: LawVersion, d: seq<byte>, i: nat)
    requires VersionSized(v) && At(d, i, EncodeVersion(v))
    ensures match AdmitChapters(v.chapters, map[], {})
            case Ok(p) => ReadVersion(d, i) == Done(
                Version(v.lawId, v.version, p.0, v.publishedAt, v.effectiveAt), i + |EncodeVersion(v)|)
            case Error(e) => ReadVersion(d, i) == Fail(e)
  {
    hide At, ReadVec, ReadOptVec, ReadUint, ReadCompact, ReadChapters, ReadVersionTail, SelfContained;
    hide EncodeHeading, EncodeCompact, EncodeChapters, EncodeVersionTail, ToLE, AdmitChapters;
    var heading := EncodeHeading(v.version, v.title, v.titleEn);
    var body := EncodeChapters(v.chapters) + EncodeVersionTail(v);
    var list := EncodeCompact(|v.chapters|) + body;
    AtSplit(d, i, ToLE(v.lawId, 8), heading + list);
    UintRoundTrip(v.lawId, 8, d, i);
    AtSplit(d, i + 8, heading, list);
    HeadingRoundTrip(v.version, v.title, v.titleEn, d, i + 8);
    var k := i + 8 + |heading|;
    CountRoundTrip(|v.chapters|, body, d, k);
    var l := k + |EncodeCompact(|v.chapters|)|;
    AtSplit(d, l, EncodeChapters(v.chapters), EncodeVersionTail(v));
    AtSlice(d, l, EncodeChapters(v.chapters));
    ChaptersRoundTrip(v.chapters, map[], {}, d, l);
    VersionTailRoundTrip(v, d, l + |EncodeChapters(v.chapters)|);
  }

  // ----- uniqueness of numbers -----

  predicate Distinct(s: seq<nat>) { forall i, j | 0 <= i < j < |s| :: s[i] != s[j] }

  function Elems(s: seq<nat>): set<nat> { set x | x in s }

  /** No number of `s` repeats an earlier one or lies in `seen`. */
  predicate Fresh(s: seq<nat>, seen: set<nat>) {
    s == [] || (s[0] !in seen && Fresh(s[1..], seen + {s[0]}))
  }

  lemma {:induction false} FreshIsDistinct(s: seq<nat>, seen: set<nat>)
    ensures Fresh(s, seen) <==> Distinct(s) && Elems(s) !! seen
  {
    if s != [] {
      FreshIsDistinct(s[1..], seen + {s[0]});
      assert s == [s[0]] + s[1..];
      assert Elems(s) == {s[0]} + Elems(s[1..]);
      if Distinct(s[1..]) && s[0] !in Elems(s[1..]) {
        forall i, j | 0 <= i < j < |s| ensures s[i] != s[j] {
          assert s[j] == s[1..][j - 1];
          if i > 0 { assert s[i] == s[1..][i - 1]; }
        }
      }
      if Distinct(s) {
        forall i, j | 0 <= i < j < |s[1..]| ensures s[1..][i] != s[1..][j] {
          assert s[i + 1] != s[j + 1];
        }
      }
    }
  }

  lemma {:induction false} FreshAppend(a: seq<nat>, b: seq<nat>, seen: set<nat>)
    ensures Fresh(a + b, seen) <==> Fresh(a, seen) && Fresh(b, seen + Elems(a))
  {
    if a == [] {
      assert a + b == b && seen + Elems(a) == seen;
    } else {
      assert (a + b)[1..] == a[1..] + b;
      assert Elems(a) == {a[0]} + Elems(a[1..]);
      assert seen + {a[0]} + Elems(a[1..]) == seen + Elems(a);
      FreshAppend(a[1..], b, seen + {a[0]});
    }
  }

  function ArticleNumbers(xs: seq<Article>): (s: seq<nat>) {
    if xs == [] then [] else [xs[0].number] + ArticleNumbers(xs[1..])
  }

  function SectionNumbers(xs: seq<Section>): (s: seq<nat>) {
    if xs == [] then [] else [xs[0].number] + SectionNumbers(xs[1..])
  }

  function ChapterNumbers(xs: seq<Chapter>): (s: seq<nat>) {
    if xs == [] then [] else [xs[0].number] + ChapterNumbers(xs[1..])
  }

  function ArticlesInSections(xs: seq<Section>): (s: seq<Article>) {
    if xs == [] then [] else xs[0].articles + ArticlesInSections(xs[1..])
  }

  function ArticlesInChapters(xs: seq<Chapter>): (s: seq<Article>) {
    if xs == [] then [] else ArticlesInSections(xs[0].sections) + ArticlesInChapters(xs[1..])
  }

  lemma {:induction false} ArticleNumbersAppend(a: seq<Article>, b: seq<Article>)
    ensures ArticleNumbers(a + b) == ArticleNumbers(a) + ArticleNumbers(b)
  {
    if a == [] {
      assert a + b == b;
    } else {
      assert (a + b)[1..] == a[1..] + b;
      ArticleNumbersAppend(a[1..], b);
    }
  }

  lemma {:induction false} SectionArticlesSized(xs: seq<Section>)
    requires forall s | s in xs :: SectionSized(s)
    ensures forall a | a in ArticlesInSections(xs) :: ArticleSized(a)
  {
    if xs != [] {
      assert SectionSized(xs[0]);
      SectionArticlesSized(xs[1..]);
    }
  }

  lemma {:induction false} ChapterArticlesSized(xs: seq<Chapter>)
    requires forall c | c in xs :: ChapterSized(c)
    ensures forall a | a in ArticlesInChapters(xs) :: ArticleSized(a)
  {
    if xs != [] {
      assert ChapterSized(xs[0]);
      SectionArticlesSized(xs[0].sections);
      ChapterArticlesSized(xs[1..]);
    }
  }

  /** `r` is `m` extended by the encodings of `xs` under their numbers, and nothing else. */
  ghost predicate Indexes(r: map<nat, seq<byte>>, m: map<nat, seq<byte>>, xs: seq<Article>)
    requires forall a | a in xs :: ArticleSized(a)
  {
    && r.Keys == m.Keys + Elems(ArticleNumbers(xs))
    && (forall a | a in xs :: a.number in r && r[a.number] == EncodeArticle(a))
    && (forall k | k in m :: r[k] == m[k])
  }

  lemma IndexesKeys(r: map<nat, seq<byte>>, m: map<nat, seq<byte>>, xs: seq<Article>)
    requires forall a | a in xs :: ArticleSized(a)
    requires Indexes(r, m, xs)
    ensures r.Keys == m.Keys + Elems(ArticleNumbers(xs))
  {}

  lemma IndexesNone(m: map<nat, seq<byte>>)
    ensures Indexes(m, m, [])
  {}

  lemma IndexesOne(x: Article, m: map<nat, seq<byte>>)
    requires ArticleSized(x) && x.number !in m
    ensures forall a | a in [x] :: ArticleSized(a)
    ensures Indexes(m[x.number := EncodeArticle(x)], m, [x])
  {
    hide ArticleSized, EncodeArticle;
    assert ArticleNumbers([x]) == [x.number] by { assert [x][1..] == []; }
    assert Elems([x.number]) == {x.number};
  }

  lemma IndexesAppend(r: map<nat, seq<byte>>, q: map<nat, seq<byte>>, m: map<nat, seq<byte>>,
                      a: seq<Article>, b: seq<Article>)
    requires forall x | x in a + b :: ArticleSized(x)
    requires (forall x | x in a :: ArticleSized(x)) && (forall x | x in b :: ArticleSized(x))
    requires Indexes(q, m, a) && Indexes(r, q, b)
    ensures Indexes(r, m, a + b)
  {
    hide ArticleSized, EncodeArticle;
    ArticleNumbersAppend(a, b);
    assert Elems(ArticleNumbers(a + b)) == Elems(ArticleNumbers(a)) + Elems(ArticleNumbers(b));
    forall x | x in a + b ensures x.number in r && r[x.number] == EncodeArticle(x) {
      if x in a {
        assert x.number in q && q[x.number] == EncodeArticle(x);
      } else {
        assert x in b;
      }
    }
  }

  lemma {:induction false} AdmitArticlesExactly(xs: seq<Article>, m: map<nat, seq<byte>>)
    requires forall a | a in xs :: ArticleSized(a)
    ensures AdmitArticles(xs, m).Ok? <==> Fresh(ArticleNumbers(xs), m.Keys)
    ensures AdmitArticles(xs, m).Ok? ==> Indexes(AdmitArticles(xs, m).value, m, xs)
    ensures AdmitArticles(xs, m).Error? ==> AdmitArticles(xs, m).error == DuplicateArticle
    decreases |xs|
  {
    IndexesNone(m);
    hide ArticleSized, EncodeArticle, Indexes, Fresh, ArticleNumbers;
    if xs == [] {
      NoArticles(m.Keys);
    } else {
      var m' := m[xs[0].number := EncodeArticle(xs[0])];
      FreshArticles(xs, m.Keys, m'.Keys);
      AdmitArticlesExactly(xs[1..], m');
      if xs[0].number !in m && AdmitArticles(xs[1..], m').Ok? {
        IndexesOne(xs[0], m);
        assert xs == [xs[0]] + xs[1..];
        IndexesAppend(AdmitArticles(xs[1..], m').value, m', m, [xs[0]], xs[1..]);
      }
    }
  }

  lemma NoArticles(seen: set<nat>)
    ensures Fresh(ArticleNumbers([]), seen)
  {}

  lemma FreshArticles(xs: seq<Article>, seen: set<nat>, seen': set<nat>)
    requires xs != [] && seen' == seen + {xs[0].number}
    ensures Fresh(ArticleNumbers(xs), seen) <==> xs[0].number !in seen && Fresh(ArticleNumbers(xs[1..]), seen')
  {
    assert ArticleNumbers(xs)[1..] == ArticleNumbers(xs[1..]);
  }

  lemma {:induction false} AdmitSectionsExactly(xs: seq<Section>, m: map<nat, seq<byte>>, seen: set<nat>)
    requires forall s | s in xs :: SectionSized(s)
    requires forall a | a in ArticlesInSections(xs) :: ArticleSized(a)
    ensures AdmitSections(xs, m, seen).Ok? <==>
            Fresh(SectionNumbers(xs), seen) && Fresh(ArticleNumbers(ArticlesInSections(xs)), m.Keys)
    ensures AdmitSections(xs, m, seen).Ok? ==>
              Indexes(AdmitSections(xs, m, seen).value.0, m, ArticlesInSections(xs))
    ensures AdmitSections(xs, m, seen).Error? ==>
              match AdmitSections(xs, m, seen).error
              case DuplicateSection => !Fresh(SectionNumbers(xs), seen)
              case DuplicateArticle => !Fresh(ArticleNumbers(ArticlesInSections(xs)), m.Keys)
              case _ => false
    decreases |xs|
  {
    hide ArticleSized, EncodeArticle, AdmitArticles, Indexes;
    IndexesNone(m);
    if xs != [] {
      assert SectionSized(xs[0]);
      var head, tail := xs[0].articles, ArticlesInSections(xs[1..]);
      assert SectionNumbers(xs)[1..] == SectionNumbers(xs[1..]);
      AdmitArticlesExactly(head, m);
      ArticleNumbersAppend(head, tail);
      FreshAppend(ArticleNumbers(head), ArticleNumbers(tail), m.Keys);
      if AdmitArticles(head, m).Ok? {
        var q := AdmitArticles(head, m).value;
        IndexesKeys(q, m, head);
        SectionArticlesSized(xs[1..]);
        AdmitSectionsExactly(xs[1..], q, seen + {xs[0].number});
        if xs[0].number !in seen && AdmitSections(xs[1..], q, seen + {xs[0].number}).Ok? {
          IndexesAppend(AdmitSections(xs, m, seen).value.0, q, m, head, tail);
        }
      }
    }
  }

  ghost predicate SectionsFresh(c: Chapter) { Fresh(SectionNumbers(c.sections), {}) }

  lemma {:induction false} AdmitChaptersExactly(xs: seq<Chapter>, m: map<nat, seq<byte>>, seen: set<nat>)
    requires forall c | c in xs :: ChapterSized(c)
    requires forall a | a in ArticlesInChapters(xs) :: ArticleSized(a)
    ensures AdmitChapters(xs, m, seen).Ok? <==>
            && Fresh(ChapterNumbers(xs), seen)
            && (forall c | c in xs :: SectionsFresh(c))
            && Fresh(ArticleNumbers(ArticlesInChapters(xs)), m.Keys)
    ensures AdmitChapters(xs, m, seen).Ok? ==>
              Indexes(AdmitChapters(xs, m, seen).value.0, m, ArticlesInChapters(xs))
    ensures AdmitChapters(xs, m, seen).Error? ==>
              match AdmitChapters(xs, m, seen).error
              case DuplicateChapter => !Fresh(ChapterNumbers(xs), seen)
              case DuplicateSection => exists c | c in xs :: !SectionsFresh(c)
              case DuplicateArticle => !Fresh(ArticleNumbers(ArticlesInChapters(xs)), m.Keys)
              case _ => false
    decreases |xs|
  {
    assert xs == [] ==> Indexes(m, m, []);
    assert xs != [] ==> (SectionsFresh(xs[0]) <==> Fresh(SectionNumbers(xs[0].sections), {}));
    hide ArticleSized, SectionSized, EncodeArticle, AdmitSections, Indexes, SectionsFresh;
    if xs != [] {
      assert ChapterSized(xs[0]);
      var head, tail := ArticlesInSections(xs[0].sections), ArticlesInChapters(xs[1..]);
      assert ChapterNumbers(xs)[1..] == ChapterNumbers(xs[1..]);
      assert forall c :: c in xs <==> c == xs[0] || c in xs[1..];
      SectionArticlesSized(xs[0].sections);
      AdmitSectionsExactly(xs[0].sections, m, {});
      ArticleNumbersAppend(head, tail);
      FreshAppend(ArticleNumbers(head), ArticleNumbers(tail), m.Keys);
      if AdmitSections(xs[0].sections, m, {}).Ok? {
        var q := AdmitSections(xs[0].sections, m, {}).value.0;
        IndexesKeys(q, m, head);
        ChapterArticlesSized(xs[1..]);
        AdmitChaptersExactly(xs[1..], q, seen + {xs[0].number});
        if xs[0].number !in seen && AdmitChapters(xs[1..], q, seen + {xs[0].number}).Ok? {
          IndexesAppend(AdmitChapters(xs, m, seen).value.0, q, m, head, tail);
        }
      } else {
        assert AdmitSections(xs[0].sections, m, {}).error == DuplicateSection ==> !SectionsFresh(xs[0]);
      }
    }
  }

  // ----- main theorem -----

  ghost predicate ChaptersDistinct(v: LawVersion) { Distinct(ChapterNumbers(v.chapters)) }
  ghost predicate SectionsDistinct(v: LawVersion) {
    forall c | c in v.chapters :: Distinct(SectionNumbers(c.sections))
  }
  ghost predicate ArticlesDistinct(v: LawVersion) { Distinct(ArticleNumbers(ArticlesInChapters(v.chapters))) }

  /**
   On the encoding of a law version, whatever bytes follow, `parse_version` succeeds if
   and only if chapter numbers are globally distinct, section numbers distinct within
   their chapter and article numbers globally distinct. It then returns the map from
   each article number to that article's own encoded bytes and stops exactly behind the
   encoding; otherwise the error names a uniqueness that is really violated.
   */
  lemma VersionAcceptedExactlyWhenUnique(v: LawVersion, suffix: seq<byte>)
    requires VersionSized(v)
    ensures forall a | a in ArticlesInChapters(v.chapters) :: ArticleSized(a)
    ensures var r := ReadVersion(EncodeVersion(v) + suffix, 0);
            && (r.Done? <==> ChaptersDistinct(v) && SectionsDistinct(v) && ArticlesDistinct(v))
            && (r.Done? ==>
                  && r.next == |EncodeVersion(v)|
                  && r.value.(articles := map[])
                     == Version(v.lawId, v.version, map[], v.publishedAt, v.effectiveAt)
                  && Indexes(r.value.articles, map[], ArticlesInChapters(v.chapters)))
            && (r.Fail? ==>
                  match r.error
                  case DuplicateChapter => !ChaptersDistinct(v)
                  case DuplicateSection => !SectionsDistinct(v)
                  case DuplicateArticle => !ArticlesDistinct(v)
                  case _ => false)
  {
    hide ReadVersion, EncodeVersion, AdmitChapters, ChapterSized, ArticleSized, Fresh, Distinct, Indexes;
    ChapterArticlesSized(v.chapters);
    AtFront(EncodeVersion(v), suffix);
    VersionRoundTrip(v, EncodeVersion(v) + suffix, 0);
    AdmitChaptersExactly(v.chapters, map[], {});
    NoKeys(map[]);
    FreshIsDistinct(ChapterNumbers(v.chapters), {});
    FreshIsDistinct(ArticleNumbers(ArticlesInChapters(v.chapters)), {});
    forall c | c in v.chapters
      ensures SectionsFresh(c) <==> Distinct(SectionNumbers(c.sections))
    {
      FreshIsDistinct(SectionNumbers(c.sections), {});
    }
  }

  lemma NoKeys(m: map<nat, seq<byte>>)
    requires m == map[]
    ensures m.Keys == {}
  {}
}
