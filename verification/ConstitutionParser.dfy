/**
 The parsers as the script runs them: one decoder whose cursor advances, one article
 dictionary filled for the whole document, one set of numbers per level. Every method is
 proved against what `Constitution` and `Genesis` say is read.
 */
module ConstitutionParser {
  import opened Bytes
  import opened Scale
  import opened Constitution
  import opened Genesis

  /** The dictionary `articles` that all sections fill. */
  class ArticleTable {
    var entries: map<nat, seq<byte>>

    constructor ()
      ensures entries == map[]
    {
      entries := map[];
    }
  }

  /** The set of chapter or section numbers met so far. */
  class NumberSet {
    var members: set<nat>

    constructor ()
      ensures members == {}
    {
      members := {};
    }
  }

  method SkipClause(s: Decoder) returns (r: Result<()>)
    requires s.Valid()
    modifies s
    ensures s.Valid() && s.i >= old(s.i)
    ensures r == ReadClause(s.data, old(s.i)).Outcome()
    ensures r.Ok? ==> s.i == ReadClause(s.data, old(s.i)).next
  {
    hide ReadVec, ReadOptVec, ReadUint;
    var _ :- s.U32();
    var _ :- s.VecBytes();
    var _ :- s.OptBytes();
    return Ok(());
  }

  method ParseArticle(s: Decoder) returns (r: Result<(nat, seq<byte>)>)
    requires s.Valid()
    modifies s
    ensures s.Valid() && s.i >= old(s.i)
    ensures r == ReadArticle(s.data, old(s.i)).Outcome()
    ensures r.Ok? ==> s.i == ReadArticle(s.data, old(s.i)).next
  {
    hide ReadVec, ReadOptVec, ReadUint, ReadCompact, ReadClause;
    var start := s.i;
    var number :- s.U32();
    var _ :- s.VecBytes();
    var _ :- s.OptBytes();
    var _ :- s.VecBytes();
    var _ :- s.OptBytes();
    var n :- s.Compact();
    ghost var listed := s.i;
    for k := 0 to n
      invariant s.Valid() && s.i >= listed
      invariant ReadClauses(s.data, listed, n) == ReadClauses(s.data, s.i, n - k)
    {
      var _ :- SkipClause(s);
    }
    return Ok((number, s.data[start..s.i]));
  }

  method ParseSection(s: Decoder, articles: ArticleTable, sectionNumbers: NumberSet) returns (r: Result<()>)
    requires s.Valid()
    modifies s, articles, sectionNumbers
    ensures s.Valid() && s.i >= old(s.i)
    ensures match ReadSection(s.data, old(s.i), old(articles.entries), old(sectionNumbers.members))
            case Done(p, k) => r == Ok(()) && s.i == k && articles.entries == p.0 && sectionNumbers.members == p.1
            case Fail(e) => r == Error(e)
  {
    hide ReadVec, ReadOptVec, ReadUint, ReadCompact, ReadArticle, SelfContained;
    var number :- s.U32();
    if number in sectionNumbers.members { return Error(DuplicateSection); }
    sectionNumbers.members := sectionNumbers.members + {number};
    var _ :- s.VecBytes();
    var _ :- s.OptBytes();
    var n :- s.Compact();
    ghost var listed := s.i;
    for k := 0 to n
      invariant s.Valid() && s.i >= listed
      invariant sectionNumbers.members == old(sectionNumbers.members) + {number}
      invariant ReadArticles(s.data, listed, n, old(articles.entries))
             == ReadArticles(s.data, s.i, n - k, articles.entries)
    {
      var a :- ParseArticle(s);
      if a.0 in articles.entries { return Error(DuplicateArticle); }
      articles.entries := articles.entries[a.0 := a.1];
    }
    return Ok(());
  }

  method ParseChapter(s: Decoder, articles: ArticleTable, chapterNumbers: NumberSet) returns (r: Result<()>)
    requires s.Valid()
    modifies s, articles, chapterNumbers
    ensures s.Valid() && s.i >= old(s.i)
    ensures match ReadChapter(s.data, old(s.i), old(articles.entries), old(chapterNumbers.members))
            case Done(p, k) => r == Ok(()) && s.i == k && articles.entries == p.0 && chapterNumbers.members == p.1
            case Fail(e) => r == Error(e)
  {
    hide ReadVec, ReadOptVec, ReadUint, ReadCompact, ReadSection, SelfContained;
    var number :- s.U32();
    if number in chapterNumbers.members { return Error(DuplicateChapter); }
    chapterNumbers.members := chapterNumbers.members + {number};
    var _ :- s.VecBytes();
    var _ :- s.OptBytes();
    var sectionNumbers := new NumberSet();
    var n :- s.Compact();
    ghost var listed := s.i;
    for k := 0 to n
      invariant s.Valid() && s.i >= listed
      invariant chapterNumbers.members == old(chapterNumbers.members) + {number}
      invariant ReadSections(s.data, listed, n, old(articles.entries), {})
             == ReadSections(s.data, s.i, n - k, articles.entries, sectionNumbers.members)
    {
      var _ :- ParseSection(s, articles, sectionNumbers);
    }
    return Ok(());
  }

  /** `parse_version`; all theorems about `ReadVersion` are theorems about this method. */
  method ParseVersion(raw: seq<byte>) returns (r: Result<Version>)
    ensures r == ReadVersion(raw, 0).Outcome()
  {
    hide ReadVec, ReadOptVec, ReadUint, ReadCompact, ReadChapter, ReadVersionTail, SelfContained;
    var s := new Decoder(raw);
    var lawId :- s.U64();
    var version :- s.U32();
    var _ :- s.VecBytes();
    var _ :- s.OptBytes();
    var articles := new ArticleTable();
    var chapterNumbers := new NumberSet();
    var n :- s.Compact();
    ghost var listed := s.i;
    for k := 0 to n
      invariant s.Valid() && s.i >= listed && s.data == raw
      invariant ReadChapters(raw, listed, n, map[], {})
             == ReadChapters(raw, s.i, n - k, articles.entries, chapterNumbers.members)
    {
      var _ :- ParseChapter(s, articles, chapterNumbers);
    }
    var times :- ParseVersionTail(s);
    return Ok(Version(lawId, version, articles.entries, times.0, times.1));
  }

  /** The fields behind the chapters. */
  method ParseVersionTail(s: Decoder) returns (r: Result<(nat, nat)>)
    requires s.Valid()
    modifies s
    ensures s.Valid() && s.i >= old(s.i)
    ensures r == ReadVersionTail(s.data, old(s.i)).Outcome()
  {
    hide ReadUint, ReadRaw, ReadU8;
    var _ :- s.Raw(32);
    var _ :- s.U8();
    var _ :- s.U64();
    var publishedAt :- s.U64();
    var effectiveAt :- s.U64();
    return Ok((publishedAt, effectiveAt));
  }

  method ParseLaw(raw: seq<byte>) returns (r: Result<Law>)
    ensures r == ReadLaw(raw)
  {
    hide ReadVec, ReadOptU32, ReadUint, ReadCompact, ReadU8;
    var s := new Decoder(raw);
    var lawId :- s.U64();
    var tier :- s.U8();
    var scopeCode :- s.U32();
    var n :- s.Compact();
    ghost var listed := s.i;
    for k := 0 to n
      invariant s.Valid() && s.i >= listed && s.data == raw
      invariant SkipTexts(raw, listed, n) == SkipTexts(raw, s.i, n - k)
    {
      var _ :- s.VecBytes();
    }
    var effective :- s.OptU32();
    var latest :- s.U32();
    var pending :- s.OptU32();
    var status :- s.U8();
    if s.i != |raw| { return Error(TrailingBytes); }
    return Ok(Law(lawId, tier, scopeCode, effective, latest, pending, status));
  }
}
