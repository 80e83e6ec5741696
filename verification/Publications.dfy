/**
 The release pointers of the download site: the row contents, the request handlers on the
 table, and the atomic compare-and-set object they are measured against.
 */
module Publications {
  import opened Bytes
  import opened Text

  datatype Platform = LinuxArm | LinuxAmd | Macos | Windows

  datatype Publication = Publication(versionTag: string, sourceSha: string,
                                     assetName: string, assetSha256: string)

  datatype Row = Row(versionTag: Option<string>, sourceSha: Option<string>, assetName: Option<string>,
                     assetSha256: Option<string>, revision: nat, publishedAt: Option<nat>)

  const EMPTY_ROW := Row(None, None, None, None, 0, None)

  // ----- what a publication must look like -----

  /** Major number, then two numbers of one or two digits. */
  predicate IsVersion(v: string) {
    exists i, j | 0 <= i < j < |v| ::
      && v[i] == '.' && v[j] == '.' && Digits(v[..i])
      && Digits(v[i + 1..j]) && j - i <= 3 && Digits(v[j + 1..]) && |v| - j <= 3
  }

  function TagPrefix(p: Platform): string {
    match p
    case LinuxArm => "citizenchain-node-linux-arm-v"
    case LinuxAmd => "citizenchain-node-linux-amd-v"
    case Macos => "citizenchain-node-macos-v"
    case Windows => "citizenchain-node-windows-v"
  }

  function Asset(p: Platform, version: string): string {
    match p
    case LinuxArm => "citizenchain-node-LinuxARM-v" + version + ".deb"
    case LinuxAmd => "citizenchain-node-LinuxAMD-v" + version + ".deb"
    case Macos => "citizenchain-node-macOS-v" + version + ".dmg"
    case Windows => "citizenchain-node-Windows-v" + version + ".exe"
  }

  function VersionOf(p: Platform, v: Publication): string
    requires TagPrefix(p) <= v.versionTag
  {
    v.versionTag[|TagPrefix(p)|..]
  }

  predicate ValidPublication(p: Platform, v: Publication) {
    && TagPrefix(p) <= v.versionTag
    && IsVersion(VersionOf(p, v)) && v.assetName == Asset(p, VersionOf(p, v))
    && LowerHex(v.sourceSha, 40) && LowerHex(v.assetSha256, 64)
  }

  /** A release as it is named: the tag and the asset carry the same version. */
  function Release(p: Platform, version: string, sourceSha: string, assetSha256: string): Publication {
    match p
    case LinuxArm =>
      Publication("citizenchain-node-linux-arm-v" + version, sourceSha,
                  "citizenchain-node-LinuxARM-v" + version + ".deb", assetSha256)
    case LinuxAmd =>
      Publication("citizenchain-node-linux-amd-v" + version, sourceSha,
                  "citizenchain-node-LinuxAMD-v" + version + ".deb", assetSha256)
    case Macos =>
      Publication("citizenchain-node-macos-v" + version, sourceSha,
                  "citizenchain-node-macOS-v" + version + ".dmg", assetSha256)
    case Windows =>
      Publication("citizenchain-node-windows-v" + version, sourceSha,
                  "citizenchain-node-Windows-v" + version + ".exe", assetSha256)
  }

  function Dotted(major: string, minor: string, patch: string): string { major + "." + minor + "." + patch }

  /** Decimal digits in all three places, one or two in the last two. */
  predicate VersionNumbers(major: string, minor: string, patch: string) {
    Digits(major) && Digits(minor) && |minor| <= 2 && Digits(patch) && |patch| <= 2
  }

  lemma DottedIsVersion(major: string, minor: string, patch: string)
    requires VersionNumbers(major, minor, patch)
    ensures IsVersion(Dotted(major, minor, patch))
  {
    var v := Dotted(major, minor, patch);
    var i, j := |major|, |major| + 1 + |minor|;
    assert v[i] == '.' && v[j] == '.' && v[..i] == major && v[i + 1..j] == minor && v[j + 1..] == patch;
  }

  lemma VersionIsDotted(v: string) returns (major: string, minor: string, patch: string)
    requires IsVersion(v)
    ensures VersionNumbers(major, minor, patch) && v == Dotted(major, minor, patch)
  {
    var i, j :| 0 <= i < j < |v| && v[i] == '.' && v[j] == '.' && Digits(v[..i])
      && Digits(v[i + 1..j]) && j - i <= 3 && Digits(v[j + 1..]) && |v| - j <= 3;
    hide Digits, IsVersion;
    major, minor, patch := v[..i], v[i + 1..j], v[j + 1..];
    TwoDots(v, i, j);
  }

  lemma TwoDots(v: string, i: nat, j: nat)
    requires i < j < |v| && v[i] == '.' && v[j] == '.'
    ensures v == v[..i] + "." + v[i + 1..j] + "." + v[j + 1..]
  {
    assert v[..i] + "." == v[..i + 1];
    assert v[..i + 1] + v[i + 1..j] == v[..j];
    assert v[..j] + "." == v[..j + 1];
  }

  lemma ReleaseOfVersion(p: Platform, v: Publication)
    requires TagPrefix(p) <= v.versionTag
    ensures v == Release(p, VersionOf(p, v), v.sourceSha, v.assetSha256) <==> v.assetName == Asset(p, VersionOf(p, v))
  {
    assert v.versionTag == TagPrefix(p) + VersionOf(p, v);
  }

  lemma ReleaseHasVersion(p: Platform, version: string, sourceSha: string, assetSha256: string)
    ensures var v := Release(p, version, sourceSha, assetSha256);
            TagPrefix(p) <= v.versionTag && VersionOf(p, v) == version && v.assetName == Asset(p, version)
  {}

  /** What may be published for a platform: exactly its releases, with digests of 40 and of 64 hexadecimal digits. */
  lemma ValidExactly(p: Platform, v: Publication)
    ensures ValidPublication(p, v) <==>
            && LowerHex(v.sourceSha, 40) && LowerHex(v.assetSha256, 64)
            && exists major, minor, patch :: VersionNumbers(major, minor, patch)
                 && v == Release(p, Dotted(major, minor, patch), v.sourceSha, v.assetSha256)
  {
    hide LowerHex, IsVersion, VersionNumbers, Release, Asset, TagPrefix;
    if ValidPublication(p, v) {
      var major, minor, patch := VersionIsDotted(VersionOf(p, v));
      ReleaseOfVersion(p, v);
    }
    forall major, minor, patch |
      VersionNumbers(major, minor, patch) && v == Release(p, Dotted(major, minor, patch), v.sourceSha, v.assetSha256)
      ensures TagPrefix(p) <= v.versionTag && IsVersion(VersionOf(p, v)) && v.assetName == Asset(p, VersionOf(p, v))
    {
      ReleaseHasVersion(p, Dotted(major, minor, patch), v.sourceSha, v.assetSha256);
      DottedIsVersion(major, minor, patch);
    }
  }

  /** No release of one platform can be published for another one. */
  lemma PlatformsApart(p: Platform, q: Platform, v: Publication)
    requires ValidPublication(p, v) && ValidPublication(q, v)
    ensures p == q
  {
    hide IsVersion, LowerHex, Asset;
    assert forall k | 0 <= k < |TagPrefix(p)| :: v.versionTag[k] == TagPrefix(p)[k];
    assert forall k | 0 <= k < |TagPrefix(q)| :: v.versionTag[k] == TagPrefix(q)[k];
    assert v.versionTag[18] == TagPrefix(p)[18] == TagPrefix(q)[18];
    if p in {LinuxArm, LinuxAmd} && q in {LinuxArm, LinuxAmd} {
      assert v.versionTag[25] == TagPrefix(p)[25] == TagPrefix(q)[25];
    }
  }

  predicate IsPublished(r: Row) {
    r.versionTag.Some? && r.sourceSha.Some? && r.assetName.Some? && r.assetSha256.Some? && r.publishedAt.Some?
  }

  predicate SamePublication(r: Row, v: Option<Publication>) {
    match v
    case None => !IsPublished(r)
    case Some(w) => && r.versionTag == Some(w.versionTag) && r.sourceSha == Some(w.sourceSha)
                    && r.assetName == Some(w.assetName) && r.assetSha256 == Some(w.assetSha256)
  }

  /** The row an update writes. */
  function Written(v: Option<Publication>, revision: nat, now: nat): Row {
    match v
    case None => Row(None, None, None, None, revision, None)
    case Some(w) => Row(Some(w.versionTag), Some(w.sourceSha), Some(w.assetName), Some(w.assetSha256),
                        revision, Some(now))
  }

  /** A stored row is entirely null, or entirely set and valid for its own platform. */
  predicate RowOk(p: Platform, r: Row) {
    || (r == EMPTY_ROW.(revision := r.revision))
    || (IsPublished(r) && ValidPublication(p, Content(r)))
  }

  function Content(r: Row): Publication
    requires IsPublished(r)
  {
    Publication(r.versionTag.value, r.sourceSha.value, r.assetName.value, r.assetSha256.value)
  }

  // ----- requests -----

  datatype Request =
    | Get
    | Put(expected: int, publication: Option<Publication>)
    | Download(updater: bool)

  datatype Response =
    | Success(row: Row)
    | Redirect(tag: string, asset: string)
    | BadRequest
    | NotFound
    | Conflict
    | Unavailable
    | InvalidStored  // the public redirect found a stored row that fails validation

  /** Passes the checks made before the table is touched. */
  predicate Admissible(p: Platform, q: Request) {
    q.Put? ==>
      && 0 <= q.expected <= MAX_SAFE_INTEGER
      && (q.publication.Some? ==> ValidPublication(p, q.publication.value))
  }

  /** What a request may carry: revision 0 to 2^53 - 1, and nothing or a release of this platform. */
  lemma AdmissibleExactly(p: Platform, q: Request)
    ensures !q.Put? ==> Admissible(p, q)
    ensures q.Put? ==>
      (Admissible(p, q) <==>
         && 0 <= q.expected < 0x20_0000_0000_0000
         && (q.publication.Some? ==>
               && LowerHex(q.publication.value.sourceSha, 40) && LowerHex(q.publication.value.assetSha256, 64)
               && exists major, minor, patch :: VersionNumbers(major, minor, patch)
                    && q.publication.value == Release(p, Dotted(major, minor, patch), q.publication.value.sourceSha,
                                                      q.publication.value.assetSha256)))
  {
    hide ValidPublication, VersionNumbers, LowerHex, Release, Dotted;
    if q.Put? && q.publication.Some? { ValidExactly(p, q.publication.value); }
  }

  /** The handler behind its read: an answer, or the update it goes on to. */
  datatype AfterRead = Answer(response: Response) | Update(current: Row)

  function DecideOnRow(p: Platform, q: Request, r: Row): AfterRead {
    if r.revision > MAX_SAFE_INTEGER then Answer(Unavailable)
    else match q
      case Get => Answer(Success(r))
      case Put(expected, v) =>
        if SamePublication(r, v) then Answer(Success(r))
        else if r.revision != expected then Answer(Conflict)
        else Update(r)
      case Download(updater) =>
        if !IsPublished(r) then Answer(NotFound)
        else if !ValidPublication(p, Content(r)) then Answer(InvalidStored)
        else Answer(Redirect(r.versionTag.value,
                             if updater then "citizenchain-node-latest-macOS.json" else r.assetName.value))
  }

  function Decide(p: Platform, q: Request, rows: map<Platform, Row>): AfterRead {
    if !Admissible(p, q) then Answer(BadRequest)
    else if p !in rows then Answer(Unavailable)
    else DecideOnRow(p, q, rows[p])
  }

  // ----- the handlers, alone on the table -----

  class PublicationTable {
    var rows: map<Platform, Row>

    /** The schema's baseline: four empty pointers at revision 0. */
    constructor ()
      ensures rows == InitialRows()
    {
      rows := InitialRows();
    }

    /** `UPDATE ... WHERE platform = ? AND revision = ?`; the number of changed rows. */
    method UpdateWhere(p: Platform, revision: nat, value: Row) returns (changes: nat)
      modifies this
      ensures changes == 1 <==> p in old(rows) && old(rows)[p].revision == revision
      ensures rows == if changes == 1 then old(rows)[p := value] else old(rows)
    {
      if p in rows && rows[p].revision == revision {
        rows := rows[p := value];
        return 1;
      }
      return 0;
    }

    /** One request with nobody else on the table: exactly the atomic object. */
    method Handle(p: Platform, q: Request, now: nat) returns (response: Response)
      modifies this
      ensures p in old(rows) && Admissible(p, q) ==>
                p in rows && CasAllows(p, q, old(rows)[p], rows[p], response)
                && rows == old(rows)[p := rows[p]]
      ensures !(p in old(rows) && Admissible(p, q)) ==>
                rows == old(rows) && response == (if Admissible(p, q) then Unavailable else BadRequest)
      ensures q.Put? && p in old(rows) && Admissible(p, q) && old(rows)[p].revision == q.expected ==>
                response == Success(rows[p])
      ensures rows != old(rows) ==>
                q.Put? && p in rows && rows[p].publishedAt == if q.publication.Some? then Some(now) else None
    {
      match Decide(p, q, rows)
      case Answer(answer) => return answer;
      case Update(current) =>
        var value := Written(q.publication, current.revision + 1, now);
        var changes := UpdateWhere(p, current.revision, value);
        if changes != 1 { return Conflict; }
        return Success(value);
    }
  }

  function InitialRows(): map<Platform, Row> {
    map[LinuxArm := EMPTY_ROW, LinuxAmd := EMPTY_ROW, Macos := EMPTY_ROW, Windows := EMPTY_ROW]
  }

  // ----- the atomic compare-and-set row -----

  /**
   One indivisible operation on a row: what it may answer and leave behind. A conflict is
   allowed whenever the revision is not the expected one, and only then.
   */
  ghost predicate CasAllows(p: Platform, q: Request, before: Row, after: Row, response: Response) {
    if !Admissible(p, q) then after == before && response == BadRequest
    else if q.Put? && before.revision != q.expected && response == Conflict then after == before
    else if before.revision > MAX_SAFE_INTEGER then after == before && response == Unavailable
    else match q
      case Get => after == before && response == Success(before)
      case Put(expected, None) =>
        if IsPublished(before)
        then before.revision == expected && response == Success(after)
             && after == Row(None, None, None, None, before.revision + 1, None)
        else after == before && response == Success(before)
      case Put(expected, Some(w)) =>
        if before == Row(Some(w.versionTag), Some(w.sourceSha), Some(w.assetName), Some(w.assetSha256),
                         before.revision, before.publishedAt)
        then after == before && response == Success(before)
        else before.revision == expected && response == Success(after) && after.publishedAt.Some?
             && after == Row(Some(w.versionTag), Some(w.sourceSha), Some(w.assetName), Some(w.assetSha256),
                             before.revision + 1, after.publishedAt)
      case Download(updater) =>
        && after == before
        && if IsPublished(before) && ValidPublication(p, Content(before))
           then response == Redirect(before.versionTag.value,
                              if updater then "citizenchain-node-latest-macOS.json" else before.assetName.value)
           else response == if IsPublished(before) then InvalidStored else NotFound
  }

  /** A successful PUT leaves exactly its own publication in the row, or an empty row, and answers that row. */
  lemma SuccessfulPutHolds(p: Platform, q: Request, before: Row, after: Row, response: Response)
    requires q.Put? && RowOk(p, before) && CasAllows(p, q, before, after, response) && response.Success?
    ensures response == Success(after)
    ensures q.publication.Some? ==> IsPublished(after) && Content(after) == q.publication.value
    ensures q.publication.None? ==> after == Row(None, None, None, None, after.revision, None)
  {}

  /** Without a word on the row before: the four columns are the ones of the request. */
  lemma SuccessfulPutColumns(p: Platform, q: Request, before: Row, after: Row, response: Response)
    requires q.Put? && CasAllows(p, q, before, after, response) && response.Success?
    ensures response == Success(after) && SamePublication(after, q.publication)
  {}

  /** Every allowed operation keeps rows well formed and moves the revision by at most one. */
  lemma CasKeepsRow(p: Platform, q: Request, before: Row, after: Row, response: Response)
    requires RowOk(p, before) && CasAllows(p, q, before, after, response)
    ensures RowOk(p, after)
    ensures after == before || after.revision == before.revision + 1
    ensures response != InvalidStored
  {
    if q.Put? && after != before {
      if q.publication.Some? {
        assert Content(after) == q.publication.value;
      }
    }
  }

  /** A PUT sent again behind its own success, with nobody in between, changes nothing and succeeds. */
  lemma ReplayedPutIsNoOp(p: Platform, q: Request, before: Row, after: Row, response: Response)
    requires q.Put? && CasAllows(p, q, before, after, response) && response.Success?
    ensures Decide(p, q, map[p := after])
         == Answer(if after.revision > MAX_SAFE_INTEGER then Unavailable else response)
  {
    SuccessfulPutColumns(p, q, before, after, response);
  }
}
