# Verified models of GMB

GMB is a blockchain with an edge service (`citizenserve`), mobile apps (`citizenapp`), an SDK
(`citizensdk`) and generators and scripts around its chain (`citizenchain`). This project models
the parts whose correctness lies in state, interleaving or byte layout rather than in a library, and
proves the properties they are built for. `dafny verify dfyconfig.toml` verifies everything.

What is modelled, one module a component:

- **Encrypted contacts** (`Contacts`, `ContactChecks`, `ContactRuns`, `ContactChanges`, `ContactCases`, `ContactPaging`). Rows are keyed by CID, binding
  revision, account and contact; a PUT is one last-writer-wins upsert, a DELETE names a row of the
  current or the previous binding, and a listing pages by (`updated_at`, `contact_id`) descending.
  `ContactTable` is the table with its two writing handlers. In the runs a request is admitted under the
  binding current at that moment and executes its statement later, with re-bindings and other requests in
  between; a paging client is interleaved with other clients' writes.
- **Release pointers** (`Publications`, `PublicationRuns`). A PUT reads a row and later issues
  `UPDATE ... WHERE revision = ?`. Any number of requests interleave at those two steps; the protocol
  linearises to one atomic compare-and-set row a platform.
- **The constitution in SCALE** (`Scale`, `Constitution`, `ConstitutionTheorem`, `ConstitutionParser`,
  `Genesis`; sections A.2.2 and following of the Polkadot Protocol Specification). `Decoder` is the
  cursor class; the parsers are methods over it, proved equal to functions whose theorems range over all
  documents and all byte strings. `CompactU32` is the second, unchecked compact decoder of the exporter.
- **Area data** (`AreaData`). The generator's three nested loops, a decoder for the documented layout,
  and the runtime's walk over the bytes.
- **MP4** (`FastStart`; boxes as in section 4.2 of ISO/IEC 14496-12). The top-level box walk.
- **Movie header relocation** (`ChunkOffsets`, `ChunkTables`, `Relocation`, `RelocationTheorem`, `MovieTrees`,
  `MovieFiles`, `RelocationCases`; chunk offsets as in section 8.7.5 of ISO/IEC 14496-12). The Android app moves `moov` in front of `mdat` and adds
  the distance to every chunk offset, in place, in a walk over nested boxes.
- **Sample pumps** (`MediaPump`, `MediaSuccess`). Two pumps on their own queues, a dispatch group and one continuation,
  as a state machine over every interleaving.
- **Storage audit** (`MediaAudit`). A page a run, with a cursor that wraps around.
- **Secret values** (`SecretValue`). A tree of nodes with byte buffers on the heap: wiping, destroying,
  copying and moving.
- **Derived addresses** (`Rewriting`, `Extraction`, `ExtractedLines`, `Reextraction`, `Independence`,
  `RewritingCases`, `ReservedTable`).
  The source text is scanned line by line for numbers and addresses, each address is replaced by the
  derived one at its first occurrence, and a sorted table of all of them is searched by the runtime.
- **Key tags** (`Base64`, with section 5 of RFC 4648). Base64url both ways and the names of keys.
- `Bytes` and `Text` hold fixed-width integers, decimal numbers and orders.

Functions of the model that take `hash`, `derive`, `utf8`, `hasPublic` or `now` take as a parameter
what the code gets from a hash, a text codec, storage or a clock.

## What the proofs found

- A contact request is checked against the current binding when it is admitted, and its statement runs
  later. A PUT overtaken by a re-binding writes a row under a revision that is over, and a DELETE overtaken
  by one removes a row two revisions back (`ContactCases.LatePutWritesOldRow`,
  `ContactCases.LateDeleteRemovesOldRow`). That is all that can reach an old row. Some run writes it, other than
  by deleting it, if and only if a pending PUT aimed at it carries another row that is not older than the stored
  one, or the stored one can be deleted first (`ContactChanges.RowWrittenExactly`). Two revisions back, or one if
  the same account is bound again, some run changes it at all if and only if one pending request would change it
  at once (`ContactChanges.RowChangedExactly`).
- With nothing pending, a row of the previous revision can be deleted exactly when the re-binding changed the
  account (`ContactRuns.PreviousRowDeletableExactly`). If the same account was bound again the row stays in
  every later run (`ContactCases.RowStuck`).
- A walk misses a contact that was there at its start exactly when writes lift the contact over the cursor
  behind some page (`ContactPaging.ContactMissedExactly`, `ContactPaging.WrittenContactMissed`). Contacts that
  nobody writes are returned once.
- `isFastStart` traps, instead of answering, exactly when a walk over well-formed boxes meets a 64-bit
  size whose addition overflows (`FastStart.IsFastStart`, `FastStart.TrapReachable`). It accepts a 64-bit size of
  8 to 15 although the head alone has 16 bytes, so that the next box starts inside the head
  (`FastStart.ShortLongSizeAccepted`).
- Both conditions behind the join of the pumps are needed: without the reader's status, or without the
  recorded append failure, a truncated track would be reported as a success
  (`MediaPump.StatusTestNeeded`, `MediaPump.ErrorRecordNeeded`). A copy succeeds exactly when no input refused a
  sample, the reader completed before the join and the file was finished (`MediaSuccess.SucceedsExactly`); one in
  which nothing fails still fails if the reader's status changes only behind the join, which AVFoundation has to
  exclude (`MediaSuccess.CompletionAfterJoinFails`).
- A CID tag is a wallet tag exactly when the wallet's namespace is the CID's with `.cid` appended and the
  encoded CID reads as the wallet's index (`Base64.TagsMeetExactly`). There are arguments the functions accept
  for which this happens (`Base64.TagsMeetAcrossNamespaces`); within one namespace, and for the namespaces the
  app's channels pass, it never does (`Base64.NamespacesApart`).
- Relocating a movie header moves the stored chunk offsets if and only if its own head is the short one of 8
  bytes, or there is no offset (`RelocationTheorem.OffsetsFollowExactly`): a 64-bit head stops the walk at once,
  without an error, although the comment promises to fail on unknown structure
  (`RelocationCases.LongHeadLeavesOffsets`). Every offset is moved by the same distance, so with a short head
  an offset still leads to its byte if and only if that byte lay between the start of the media data and the
  movie header (`RelocationTheorem.EntryFollowsExactly`; one that does not is in `RelocationCases.EntryLeftBehind`).
- A movie written from nested boxes becomes the same boxes in the new order with every chunk offset at every depth
  moved, or is rejected, in exactly the cases named in `MovieFiles.MovieRelocated`; `MovieFiles.OrdinaryFile` is one
  with its offsets where encoders put them.
- A movie header that extends to the end of the file is moved first and refused afterwards, when the file is
  already replaced (`RelocationTheorem.OptimizedExactly`, `RelocationCases.UnsizedFileDamaged`).
- A nested 64-bit length whose end is no `Long` is measured as an end before the box. A table box is refused for
  it; any other one sends the walk over the movie header backwards, and the walk need not end
  (`RelocationCases.OverflowGoesBack`, `RelocationCases.EndlessWalk`).
- Of the parsers of the genesis script the one of the law record is not prefix-stable and those of the law
  version, the manifest and the list of ids are; the exporter's compact decoder agrees with the script's on every
  input, canonical or not, on which the latter succeeds.
- Replacing first occurrences puts every changed address into its own slot if and only if it is written
  there with one space and lower-case digits, no earlier changed address is given its old digits, and they
  stand before it only in slots already rewritten (`Rewriting.EveryReplacementLandsExactly`). Otherwise a
  replacement is made in another line (`RewritingCases.NewAddressReplacedAgain`,
  `RewritingCases.UnextractedReplaced`) or not at all. The patterns
  of the extraction are wider: they also find other white space and upper-case digits, which the
  replacement then misses (`RewritingCases.UpperCaseExtractedAndMissed`). Under the condition a second run of
  the script reports no change, also when the three kinds of address share a file
  (`Independence.ApplySettlesTheFile`).
- A province without cities yields no province item in the runtime's walk (`AreaData.ForEachArea`),
  while the comment above the walk speaks of each province's item.

## Model

| member | source | states |
|---|---|---|
| Contacts.ContactTable.Put | citizenserve/src/contacts.ts:78-143 | A refused request changes nothing; an accepted one rewrites only the row under the session's CID, current binding and contact, by last-writer-wins, and answers `applied` exactly when that row is now the one sent |
| Contacts.ContactTable.Delete | citizenserve/src/contacts.ts:146-176 | A refused request changes nothing; an accepted one removes exactly the named key and answers whether it was there |
| ContactChecks.PutAcceptedExactly | citizenserve/src/contacts.ts:83-114 | A PUT is refused with the first error that applies to the text of its id, binding, binding in force, ciphertext, nonce, mac and timestamp, and otherwise writes the named row |
| ContactChecks.DeleteAcceptedExactly | citizenserve/src/contacts.ts:151-161 | A DELETE is refused for its id, its binding, or a binding that is neither the session's nor, under another account, the one before it, and otherwise deletes the named row |
| ContactChecks.RowAcceptedExactly | citizenserve/src/contacts.ts:93-114 | The three columns are accepted exactly as URL-alphabet text of 2 to 10923 (not 1 modulo 4), 16 and 22 characters, the timestamp exactly from 1 to 2^53-1 and at most five minutes ahead |
| ContactChecks.CursorAcceptedExactly | citizenserve/src/contacts.ts:277-289 | A cursor text is a place exactly when it is decimal digits of a positive safe number, a dot and 64 lower-case hexadecimal digits |
| ContactChecks.CurrentRowRemovable | citizenserve/src/contacts.ts:146-176 | In every reachable state some run removes a row of the current binding and changes nothing else |
| ContactChecks.CurrentRowWritable | citizenserve/src/contacts.ts:78-143 | From any state some run brings any acceptable row under any key of the current binding and changes nothing else |
| Contacts.ParsedRowShape | citizenserve/src/contacts.ts:93-114 | A row that passes the checks has URL-alphabet columns of 2 to 10923, exactly 16 and exactly 22 characters, and a positive safe timestamp at most five minutes ahead |
| Contacts.CursorRoundTrip | citizenserve/src/contacts.ts:277-289 | The cursor formatted for any stored row is parsed back to that row's place |
| Contacts.LastGreatestStays | citizenserve/src/contacts.ts:116-125 | After any finite sequence of PUTs to a key the row is the last in arrival order among those with the greatest timestamp |
| Contacts.UpdatedAtNeverFalls | citizenserve/src/contacts.ts:116-125 | The stored timestamp never decreases and the row never disappears under PUTs |
| Contacts.DeliveriesConverge | citizenserve/src/contacts.ts:77-125 | Two deliveries of the same PUTs in any order with any repetitions leave the same row, if equal timestamps mean equal PUTs |
| ContactRuns.TargetsAreRecent | citizenserve/src/contacts.ts:206-236 | A PUT only names a key of the binding it was admitted under; a DELETE one of that binding or, under another account, of the revision before it; a PUT's row is well-formed |
| ContactRuns.EveryRunPlacesRows | citizenserve/src/contacts.ts:78-176 | In every state reached by admissions, statements and re-bindings that raise the revision by any amount, each row lies under the account in force at its revision and has ciphertext, nonce, mac and timestamp of the right shape |
| ContactRuns.OnlyAimedChanges | citizenserve/src/contacts.ts:116-169 | A step changes a row only if it is the statement of a pending request whose checks, made with the session it was admitted under, name that row |
| ContactRuns.OldRowsReachedExactly | citizenserve/src/security/request_guard.ts:142-166 | A row of a past revision is named by a PUT statement of some run, which may leave it as it is, if and only if a PUT aimed at it is pending; two revisions back, or one under the same account, the same holds of any request |
| ContactChanges.RowWrittenExactly | citizenserve/src/security/request_guard.ts:142-166 | Some run leaves under a past revision a row other than the one there now if and only if a pending PUT aimed at it carries another row and is not older, or is older and the stored row can be deleted by a pending request or by a new one under the current binding |
| ContactChanges.RowChangedExactly | citizenserve/src/contacts.ts:116-169 | A row two revisions back, or one back under the account bound again, changes in some run if and only if a request pending now would overwrite or remove it at once |
| ContactRuns.OldRowsOverRuns | citizenserve/src/security/request_guard.ts:142-166 | Over every run: with no PUT aimed at it pending, a row of a past revision can only be deleted, never written; with no request aimed at it pending, a row two or more revisions back, or one back under the account bound again, never changes |
| ContactRuns.PreviousRowDeletableExactly | citizenserve/src/contacts.ts:226-234 | With no request aimed at it pending, some run removes a row of the previous revision if and only if the re-binding changed the account |
| ContactCases.LatePutWritesOldRow | citizenserve/src/contacts.ts:83-135 | A run from the start in which a PUT admitted before a re-binding writes a row under the revision that is over |
| ContactCases.LateDeleteRemovesOldRow | citizenserve/src/contacts.ts:151-169 | A run from the start in which a DELETE admitted before a re-binding removes a row two revisions back |
| ContactCases.RowStuck | citizenserve/src/contacts.ts:228-231 | A run from the start after which a row of the previous revision stays through every later run |
| ContactPaging.NextCursorSurvivesText | citizenserve/src/contacts.ts:66-73 | The cursor a page hands out, formatted and parsed again, continues at the same place |
| ContactPaging.PageSplits | citizenserve/src/contacts.ts:51-68 | A page is a descending run; without a cursor it is everything left, with one everything left is on the page or below its last row |
| ContactPaging.PageSize | citizenserve/src/contacts.ts:56-73 | A page has `limit` rows or all that are left, and hands out a cursor exactly when more are left than it shows |
| ContactPaging.PageOrder | citizenserve/src/contacts.ts:58-69 | Of two rows of a page the first is newer, or equally old with the greater contact id at the first difference, and each is the stored row |
| ContactPaging.NextIsSmaller | citizenserve/src/contacts.ts:41-73 | The rows below the next cursor are a proper subset of those below this one: the walk ends |
| ContactPaging.WalkIsSorted | citizenserve/src/contacts.ts:58-73 | On an unchanged table the pages one behind the other are the fully sorted table |
| ContactPaging.SortedUnique | citizenserve/src/contacts.ts:62 | There is only one descending arrangement of a set of rows, so the listing order is determined |
| ContactPaging.PutOnView | citizenserve/src/contacts.ts:116-135 | A PUT is one write to the view of its own binding and invisible to every other binding |
| ContactPaging.WritesMoveUp | citizenserve/src/contacts.ts:116-125 | Under any PUTs rows stay and move up in the listing at most; rows nobody writes stay as they are |
| ContactPaging.NoContactTwice | citizenserve/src/contacts.ts:38-75 | Whatever PUTs happen between its pages, a walk never returns a contact twice |
| ContactPaging.UnwrittenContactReturned | citizenserve/src/contacts.ts:38-75 | A finished walk has returned every contact that was there at the start and not written meanwhile, with its row |
| ContactPaging.WalkReturnsUnwrittenOnce | citizenserve/src/contacts.ts:38-75 | From the front, every such contact is returned at exactly one place of the walk |
| ContactPaging.ContactMissedExactly | citizenserve/src/contacts.ts:38-75 | A finished walk misses a contact that was there at its start if and only if, behind some page, writes lift it from below the cursor to the cursor or above |
| ContactPaging.WrittenContactMissed | citizenserve/src/contacts.ts:38-75 | Two contacts on two pages, the second written in between: the walk ends without it |
| Publications.PublicationTable.constructor | citizenserve/schema/download.sql:4-23 | The baseline is four empty pointers at revision 0 |
| Publications.PublicationTable.UpdateWhere | citizenserve/src/citizenchain_download.ts:129-143 | The conditional update changes one row exactly when the revision matches, and nothing otherwise |
| Publications.PublicationTable.Handle | citizenserve/src/citizenchain_download.ts:92-159 | Alone on the table a request behaves as the atomic object, touches no other platform, and a PUT that expects the stored revision succeeds and leaves its publication |
| Publications.SuccessfulPutHolds | citizenserve/src/citizenchain_download.ts:119-158 | Behind a successful PUT on a well-formed row the row is published and its content is exactly the publication sent, or it is all null when none was sent, and the answer is that row |
| Publications.ValidExactly | citizenserve/src/citizenchain_download.ts:184-199 | What may be published for a platform is exactly a release whose tag and asset name, written out for each platform, carry one three-part version, with digests of 40 and 64 hexadecimal digits |
| Publications.AdmissibleExactly | citizenserve/src/citizenchain_download.ts:107-118 | A PUT passes exactly with a revision from 0 to 2^53-1 and nothing or a release of this platform |
| Publications.PlatformsApart | citizenserve/src/citizenchain_download.ts:44-64 | No publication is valid for two platforms |
| Publications.CasKeepsRow | citizenserve/src/citizenchain_download.ts:107-146 | Every allowed operation keeps the row all null or all set and valid for its platform, and raises the revision by exactly one or leaves the row alone |
| Publications.ReplayedPutIsNoOp | citizenserve/src/citizenchain_download.ts:119-122 | A successful PUT sent again with nobody in between writes nothing and gets the same answer |
| PublicationRuns.EveryRunLinearises | citizenserve/src/citizenchain_download.ts:92-159 | Every interleaving of requests at their read and update steps is a sequential run of an atomic compare-and-set row that ends in the actual table, holds each answered request once with its answer, and respects real-time order |
| PublicationRuns.RevisionCountsWrites | citizenserve/src/citizenchain_download.ts:126-143 | A row's revision is the number of effective writes to it: none is lost and none shares a revision |
| PublicationRuns.RevisionDeterminesRow | citizenserve/src/citizenchain_download.ts:126-143 | Over the whole history revisions never fall and platform and revision determine the row |
| PublicationRuns.EveryRunKeepsRowsValid | citizenserve/src/citizenchain_download.ts:74-90 | In every reachable state every row is well formed, so no redirect ever meets the validation failure |
| PublicationRuns.EveryRequestCompletes | citizenserve/src/citizenchain_download.ts:92-159 | In every reachable state a request on its way can return within three steps of its own |
| PublicationRuns.PutCanSucceed | citizenserve/src/citizenchain_download.ts:119-158 | From every reachable state a PUT of an admissible publication that expects the stored revision succeeds, leaves exactly that publication, and where it writes raises the revision by one and stamps the time |
| Bytes.EndianReversed | citizenchain/scripts/check-constitution-genesis.py:96-106 | Reading little-endian is reading the reversed bytes big-endian |
| Bytes.LittleEndianRoundTrip | citizenchain/scripts/check-constitution-genesis.py:96-106 | Little-endian decoding undoes encoding for every width and every number that fits |
| Scale.Decoder.Compact | citizenchain/scripts/check-constitution-genesis.py:114-126 | The cursor's compact decoding is `ReadCompact`, moves forward only and stops behind what it used |
| Scale.Decoder.VecBytes | citizenchain/scripts/check-constitution-genesis.py:128-129 | Reads a length-prefixed byte string as `ReadVec` does |
| Scale.Decoder.OptBytes | citizenchain/scripts/check-constitution-genesis.py:131-137 | Reads an optional byte string as `ReadOptVec` does, refusing every tag but 0 and 1 |
| Scale.Decoder.OptU32 | citizenchain/scripts/check-constitution-genesis.py:139-145 | Reads an optional 32-bit number as `ReadOptU32` does |
| Scale.CompactRoundTrip | citizenchain/scripts/check-constitution-genesis.py:114-126 | Compact decoding undoes compact encoding for every natural below 2^536 at any place in any data, and stops exactly behind it |
| Scale.VecRoundTrip | citizenchain/scripts/check-constitution-genesis.py:128-129 | Decoding undoes encoding for byte strings |
| Scale.OptVecRoundTrip | citizenchain/scripts/check-constitution-genesis.py:131-137 | Decoding undoes encoding for optional byte strings |
| Scale.OptU32RoundTrip | citizenchain/scripts/check-constitution-genesis.py:139-145 | Decoding undoes encoding for optional 32-bit numbers |
| Scale.ReadsRefused | citizenchain/scripts/check-constitution-genesis.py:128-145 | A byte string is refused exactly when its count reaches behind the data, an option exactly for a tag other than 0 and 1 or a refused content |
| Scale.CompactDecodersAgree | citizenchain/scripts/export-old-chain-transactions.py:39-50 | The checked decoder succeeds exactly when the unchecked one ends inside the data, and then both give the same value and offset, canonical or not |
| Constitution.ReadArticle | citizenchain/scripts/check-constitution-genesis.py:298-307 | An article takes at least nine bytes inside the data and is returned as exactly the bytes it consumed |
| Constitution.ArticleStandsAlone | citizenchain/scripts/check-constitution-genesis.py:298-307 | The bytes stored for an article parse on their own to that article and nothing else |
| Constitution.ReadVersion | citizenchain/scripts/check-constitution-genesis.py:336-351 | A parsed version consumed at least nine bytes for each article of its map, and every entry is the complete encoding of one article under its own number |
| Constitution.VersionLocal | citizenchain/scripts/check-constitution-genesis.py:292-351 | The bytes a version consumed, moved anywhere, parse to the same version |
| Constitution.VersionPrefixStable | citizenchain/scripts/check-constitution-genesis.py:336-351 | Success on some bytes gives the same result on those bytes followed by anything |
| ConstitutionTheorem.VersionRoundTrip | citizenchain/scripts/check-constitution-genesis.py:336-351 | On the encoding of any version, at any place, parsing gives what the uniqueness rules admit, or the first rule violated |
| ConstitutionTheorem.AdmitArticlesExactly | citizenchain/scripts/check-constitution-genesis.py:317-321 | A list of articles is admitted exactly when no number repeats or is already in the map, which is then extended by exactly these encodings |
| ConstitutionTheorem.AdmitSectionsExactly | citizenchain/scripts/check-constitution-genesis.py:310-321 | Sections are admitted exactly when their numbers are new and their articles are, and an error names what is violated |
| ConstitutionTheorem.AdmitChaptersExactly | citizenchain/scripts/check-constitution-genesis.py:324-333 | Chapters are admitted exactly when their numbers are new, sections are distinct within each and articles over all |
| ConstitutionTheorem.VersionAcceptedExactlyWhenUnique | citizenchain/scripts/check-constitution-genesis.py:292-351 | An encoded version is accepted if and only if chapter, section and article numbers are distinct at their three levels; then the map holds exactly each article's own bytes and parsing stops exactly behind the encoding |
| ConstitutionParser.SkipClause | citizenchain/scripts/check-constitution-genesis.py:292-295 | The cursor method consumes exactly what `ReadClause` consumes |
| ConstitutionParser.ParseArticle | citizenchain/scripts/check-constitution-genesis.py:298-307 | The cursor method returns number and slice as `ReadArticle` does |
| ConstitutionParser.ParseSection | citizenchain/scripts/check-constitution-genesis.py:310-321 | The loop over the shared article table and section numbers leaves both as `ReadSection` says, or fails with the same error |
| ConstitutionParser.ParseChapter | citizenchain/scripts/check-constitution-genesis.py:324-333 | The loop over sections leaves articles and chapter numbers as `ReadChapter` says, or fails with the same error |
| ConstitutionParser.ParseVersion | citizenchain/scripts/check-constitution-genesis.py:336-351 | The whole parser is `ReadVersion`, so that every theorem about the latter is about the loops |
| ConstitutionParser.ParseLaw | citizenchain/scripts/check-constitution-genesis.py:168-184 | The law parser is `ReadLaw` |
| Genesis.LawAcceptedExactly | citizenchain/scripts/check-constitution-genesis.py:168-184 | An encoded law is accepted exactly when nothing follows it, and comes back field by field |
| Genesis.LawNotExtensible | citizenchain/scripts/check-constitution-genesis.py:182-183 | Any accepted law followed by anything is refused |
| Genesis.VecU64RoundTrip | citizenchain/scripts/check-constitution-genesis.py:354-356 | Decoding undoes encoding for lists of 64-bit numbers, whatever follows |
| Genesis.VecU64PrefixStable | citizenchain/scripts/check-constitution-genesis.py:354-356 | Success on some bytes gives the same list on those bytes followed by anything |
| Genesis.ManifestPrefixStable | citizenchain/scripts/check-constitution-genesis.py:359-363 | Success on some bytes gives the same numbers and digests on those bytes followed by anything |
| Genesis.ManifestRoundTrip | citizenchain/scripts/check-constitution-genesis.py:359-363 | Decoding undoes encoding for the manifest of numbers and digests, whatever follows |
| Genesis.GenesisAcceptedExactly | citizenchain/scripts/check-constitution-genesis.py:401-459 | On a storage that encodes a genesis the script passes if and only if the documents are sound: law in force at version 1, all levels uniquely numbered, each immutable article present with the digest of its own encoding, one constitution, next law 1 |
| AreaData.Generate | citizenchain/scripts/gen_area_data.py:29-63 | The nested loops succeed exactly on trees within the size limits, write the documented layout and count cities and towns |
| AreaData.GenerateProvince | citizenchain/scripts/gen_area_data.py:38-61 | The middle loop writes one province with its cities |
| AreaData.GenerateCity | citizenchain/scripts/gen_area_data.py:47-61 | The inner loop writes one city with its towns |
| AreaData.AreaRoundTrip | citizenchain/scripts/gen_area_data.py:8-12 | A decoder of the documented layout recovers the exact nesting and stops exactly behind the encoding, whatever follows |
| AreaData.AreaReadExactly | citizenchain/runtime/primitives/cid/china/area.rs:82-130 | Bytes are read as a tree exactly when they start with its layout, all lengths fit and all texts are UTF-8; all other bytes panic |
| AreaData.AreaPrefixFree | citizenchain/scripts/gen_area_data.py:8-12 | No encoding is a prefix of another tree's encoding: the layout is prefix-free and injective |
| AreaData.HomeIsPreferred | citizenchain/runtime/primitives/cid/china/area.rs:96-100 | The home city is the last of the province's cities coded 001, or the first city if none is |
| AreaData.ItemsExactly | citizenchain/runtime/primitives/cid/china/area.rs:88-129 | The items, place by place: the provinces in order, in each its cities in order, each followed by its towns in order, then the province with its home city; there are no others |
| AreaData.WalkCity | citizenchain/runtime/primitives/cid/china/area.rs:94-119 | One city's loop calls back the city and its towns, and panics exactly when the layout decoder fails |
| AreaData.WalkProvince | citizenchain/runtime/primitives/cid/china/area.rs:88-129 | One province's loop calls back cities with their towns and then the province with its home city, if it has a city |
| AreaData.ForEachArea | citizenchain/runtime/primitives/cid/china/area.rs:82-130 | On every byte string the walk calls back exactly the items of the decoded tree in order, or panics exactly when the decoder fails |
| FastStart.IsFastStart | citizenapp/ios/Runner/SquareVideoTranscoder.swift:476-504 | True exactly when the file tiles into boxes and fewer than 8 trailing bytes with its last moov before its last mdat; traps exactly when a reachable header's end overflows |
| FastStart.TrapReachable | citizenapp/ios/Runner/SquareVideoTranscoder.swift:497 | A file of 24 bytes on which the addition overflows |
| FastStart.ShortLongSizeAccepted | citizenapp/ios/Runner/SquareVideoTranscoder.swift:489-498 | A file that is accepted although its first box claims 12 bytes in a head of 16 |
| FastStart.StopsExactly | citizenapp/ios/Runner/SquareVideoTranscoder.swift:485-499 | At the first header that is no box the file is not divided, and the walk traps exactly when the claimed end needs more than 64 bits |
| FastStart.TilingUnique | citizenapp/ios/Runner/SquareVideoTranscoder.swift:483-501 | A file has at most one division into boxes |
| FastStart.TiledNeverTraps | citizenapp/ios/Runner/SquareVideoTranscoder.swift:497 | A file that tiles never traps |
| FastStart.OffsetsDecide | citizenapp/ios/Runner/SquareVideoTranscoder.swift:498-503 | Comparing the two remembered offsets is comparing the places of the last moov and the last mdat |
| FastStart.SerializedListRecovered | citizenapp/ios/Runner/SquareVideoTranscoder.swift:476-504 | Walking any serialised box list with 32-bit, 64-bit and to-end sizes recovers its boxes and offsets and nothing else, and never traps |
| ChunkOffsets.PatchTableInPlace | citizenapp/android/app/src/main/SquareMp4FastStart.kt:127-149 | The loop over a table on the array succeeds and leaves exactly what `PatchTable` says, for 32-bit and 64-bit entries |
| ChunkOffsets.PatchBoxes | citizenapp/android/app/src/main/SquareMp4FastStart.kt:107-125 | The recursive walk on the array finishes, fails or overflows as `Patch` says and leaves its bytes |
| ChunkTables.SlotsKept | citizenapp/android/app/src/main/SquareMp4FastStart.kt:107-125 | Bytes that differ only in entries of chunk offset tables have the same tables at the same places |
| ChunkTables.OffsetsMovedExactly | citizenapp/android/app/src/main/SquareMp4FastStart.kt:103-149 | Unless it overflows, the walk succeeds exactly when every table fits its box and every entry can be moved; then every entry of every nested table is moved by the distance, no other byte changes, and the tables are the same |
| ChunkTables.ModestNeverOverflows | citizenapp/android/app/src/main/SquareMp4FastStart.kt:109-113 | Without eight bytes that hold a number near 2^63 the walk never overflows |
| Relocation.TopLevelAtoms | citizenapp/android/app/src/main/SquareMp4FastStart.kt:81-101 | The loop returns the division of the whole file into boxes, or throws where there is none |
| Relocation.Optimize | citizenapp/android/app/src/main/SquareMp4FastStart.kt:18-57 | The method with its sums, its patch in memory and its two copying loops is the closed-form `Optimized`: front, moved header, media data, rest |
| RelocationTheorem.NewChain | citizenapp/android/app/src/main/SquareMp4FastStart.kt:38-50 | The relocated file is the same boxes in the new order, each at its new place |
| RelocationTheorem.OptimizedExactly | citizenapp/android/app/src/main/SquareMp4FastStart.kt:18-57 | A file with moov behind mdat is rewritten exactly when moov is not too big, its offsets can be moved and it carries its own length; it is damaged exactly when only that length is missing |
| RelocationTheorem.OptimizingTwice | citizenapp/android/app/src/main/SquareMp4FastStart.kt:24-51 | A rewritten file has the old length and a second run leaves it as it is |
| RelocationTheorem.ChunksFollow | citizenapp/android/app/src/main/SquareMp4FastStart.kt:8-49 | With a short moov head, every entry that led to some bytes of the media data leads to the same bytes in the rewritten file |
| RelocationTheorem.OffsetsFollowExactly | citizenapp/android/app/src/main/SquareMp4FastStart.kt:103-105 | The entries behind the head of moov are moved with the media data if and only if the head is short or there is no entry |
| MovieTrees.ForestPatched | citizenapp/android/app/src/main/SquareMp4FastStart.kt:107-152 | On the bytes of any tree of boxes, with the nine containers by their names, the walk writes the tree with every entry of every table moved, or refuses exactly when one cannot be |
| MovieTrees.ForestListed | citizenapp/android/app/src/main/SquareMp4FastStart.kt:107-125 | The entries found in the bytes of a tree are exactly those of its tables, at every depth, at their places and with their numbers |
| MovieFiles.FileDivides | citizenapp/android/app/src/main/SquareMp4FastStart.kt:74-101 | A file written from boxes with 32-bit and 64-bit lengths is divided into these boxes |
| MovieFiles.MovieRelocated | citizenapp/android/app/src/main/SquareMp4FastStart.kt:18-51 | A movie with its header behind the media data becomes the same boxes with the header in front and, with a 32-bit header length, all its entries moved; it is rejected exactly over 64 MiB or when an entry cannot be moved |
| MovieFiles.MovieKept | citizenapp/android/app/src/main/SquareMp4FastStart.kt:24 | A movie with its header in front stays as it is |
| MovieFiles.OthersRejected | citizenapp/android/app/src/main/SquareMp4FastStart.kt:18-23 | A file without exactly one moov and exactly one mdat is rejected |
| MovieFiles.OrdinaryFile | citizenapp/android/app/src/main/SquareMp4FastStart.kt:107-137 | A file of 72 bytes with its entry below moov, trak, mdia, minf, stbl and stco, and the bytes it becomes |
| RelocationTheorem.BytesGoToNewPlace | citizenapp/android/app/src/main/SquareMp4FastStart.kt:37-50 | Every byte outside the movie header stands in the rewritten file at the place the relocation gives it |
| RelocationTheorem.EntryFollowsExactly | citizenapp/android/app/src/main/SquareMp4FastStart.kt:27-34 | With a short head, an entry that led to a byte leads to the place that byte went to if and only if the byte lay between the start of the media data and the movie header |
| RelocationCases.UnsizedFileDamaged | citizenapp/android/app/src/main/SquareMp4FastStart.kt:51-56 | A file of 16 bytes that is replaced before it is refused |
| RelocationCases.LongHeadLeavesOffsets | citizenapp/android/app/src/main/SquareMp4FastStart.kt:103-113 | A file of 48 bytes that is rewritten with its one chunk offset left behind |
| RelocationCases.EntryLeftBehind | citizenapp/android/app/src/main/SquareMp4FastStart.kt:27-34 | A file of 40 bytes that is rewritten and whose one chunk offset, although moved, does not lead to where its byte went |
| RelocationCases.OverflowGoesBack | citizenapp/android/app/src/main/SquareMp4FastStart.kt:113-123 | Where the end of a nested box is no `Long`, both of the walk's wrapped sums are the same smaller offset |
| RelocationCases.EndlessWalk | citizenapp/android/app/src/main/SquareMp4FastStart.kt:107-125 | A movie header of 32 bytes on which the walk overflows and goes round between two boxes |
| Bytes.BigEndianRoundTrip | citizenapp/ios/Runner/SquareVideoTranscoder.swift:519-526 | Folding big-endian bytes undoes big-endian encoding for every width |
| MediaPump.EveryInterleavingIsSafe | citizenapp/ios/Runner/SquareVideoTranscoder.swift:266-346 | At every moment of every interleaving each pump has left the group at most once, the continuation has been resumed at most once and only after all left, and success means every input received its whole track in order |
| MediaPump.BusyStepsAreBounded | citizenapp/ios/Runner/SquareVideoTranscoder.swift:287-306 | Apart from readiness callbacks that find nothing to do, every interleaving takes a number of steps bounded at its start |
| MediaPump.NeverStuck | citizenapp/ios/Runner/SquareVideoTranscoder.swift:309-345 | Until the continuation has been resumed some step can be taken, at worst a further callback of an unfinished input |
| MediaPump.EveryFullRunCompletes | citizenapp/ios/Runner/SquareVideoTranscoder.swift:266-346 | In every run that cannot be continued, other than by callbacks of finished inputs, each pump has left the group exactly once and the continuation has been resumed exactly once |
| MediaPump.CompletionReachable | citizenapp/ios/Runner/SquareVideoTranscoder.swift:309-345 | From every reachable state there is a run to completion |
| MediaPump.RunsAreBounded | citizenapp/ios/Runner/SquareVideoTranscoder.swift:287-306 | A whole run has at most the initial work plus twice the number of times an input was not ready plus the callbacks of finished inputs |
| MediaPump.EmptyGroupMeansAllLeft | citizenapp/ios/Runner/SquareVideoTranscoder.swift:321-343 | An empty group behind the registration means every pump left, and with no error and a completed reader that all tracks were copied |
| MediaSuccess.SucceedsExactly | citizenapp/ios/Runner/SquareVideoTranscoder.swift:266-346 | A whole run resumes with success exactly when no input refused a sample, the reader completed before the join and the file did not fail, and otherwise with a failure |
| MediaSuccess.EveryCopyCanSucceed | citizenapp/ios/Runner/SquareVideoTranscoder.swift:266-346 | For every pair of tracks some run succeeds with both copied in full |
| MediaSuccess.CompletionAfterJoinFails | citizenapp/ios/Runner/SquareVideoTranscoder.swift:328-334 | A whole run without any failure, in which the reader completes behind the join, resumes with a failure |
| MediaPump.StatusTestNeeded | citizenapp/ios/Runner/SquareVideoTranscoder.swift:328-334 | A run reaches the join with no recorded error and a truncated track: only the reader's status refuses it |
| MediaPump.ErrorRecordNeeded | citizenapp/ios/Runner/SquareVideoTranscoder.swift:296-304 | A run reaches the join with a completed reader and a truncated track: only the recorded error refuses it |
| MediaAudit.AuditJob.Run | citizenserve/src/media.ts:192-253 | One run reads one page of each table, counts what storage lacks, and moves each cursor behind its own page; an empty table never erases either cursor |
| MediaAudit.MissingPublicCounts | citizenserve/src/media.ts:196-212 | The public count is the number of rows without their source plus the number without their derivative |
| MediaAudit.MissingPrivateCounts | citizenserve/src/media.ts:213-224 | The private count is the number of rows whose manifest storage lacks |
| MediaAudit.PageIsSlice | citizenserve/src/media.ts:265-312 | A page is the slice of at most `limit` rows behind the cursor, from the front when nothing is behind it, and the new cursor stands at its end |
| MediaAudit.EveryRowAudited | citizenserve/src/media.ts:188-246 | On n unchanged eligible rows, from any stored or missing cursor, every row is read within ceil(n/limit)+1 runs |
| MediaAudit.EveryPlaceRead | citizenserve/src/media.ts:265-312 | The same bound by places alone, whatever place the cursor starts at |
| MediaAudit.PagesAscendUntilWrap | citizenserve/src/media.ts:232-246 | Every row of a page is below every row of the next page, unless the first ended the table and the next starts it again |
| MediaAudit.PagesBetweenWraps | citizenserve/src/media.ts:232-246 | Any two pages between which no run reached the last row ascend and are disjoint |
| MediaAudit.MediaOrderTotal | citizenserve/src/media.ts:277-279 | The three-column row comparison is a strict total order |
| MediaAudit.ManifestOrderTotal | citizenserve/src/media.ts:300-302 | The two-column row comparison is a strict total order |
| SecretValue.Value.ClearSensitive | citizensdk/linux/src/citizen_sdk_flutter_codec.hpp:70-84 | A marked node zeroes every byte below it, children never marked included, and leaves no mark; an unmarked node changes nothing |
| SecretValue.Value.Destroy | citizensdk/linux/src/citizen_sdk_flutter_codec.hpp:67 | Destroying a tree leaves no non-zero byte below any node that was marked, and changes no other buffer |
| SecretValue.Value.Clone | citizensdk/linux/src/citizen_sdk_flutter_codec.hpp:54 | A copy has equal contents and marks all the way down and shares no node and no buffer |
| SecretValue.Value.Assign | citizensdk/linux/src/citizen_sdk_flutter_codec.hpp:56-59 | Copy assignment wipes the old tree where it was marked and then equals the other, which stays unchanged; self-assignment does nothing |
| SecretValue.Value.MoveAssign | citizensdk/linux/src/citizen_sdk_flutter_codec.hpp:60-66 | Move assignment wipes the old tree where it was marked, takes over buffers and mark as they are and leaves the other empty and unmarked |
| Rewriting.NoOverlap | citizenchain/scripts/rederive_accounts.py:276-306 | Inside an occurrence of an address literal no other occurrence begins |
| Rewriting.Rewrite | citizenchain/scripts/rederive_accounts.py:276-306 | The loop is the successive replacement of first occurrences |
| Rewriting.EveryReplacementLandsExactly | citizenchain/scripts/rederive_accounts.py:276-306 | Every changing replacement is made in its own literal if and only if each changed literal is written with one space and lower-case digits, its old digits are given to no earlier changed entry and stand before it only in literals of earlier changed entries |
| Rewriting.LandedArePlain | citizenchain/scripts/rederive_accounts.py:276-306 | A replacement that lands in its own literal found it written with one space and lower-case digits in the original text |
| Rewriting.RewrittenExactly | citizenchain/scripts/rederive_accounts.py:276-306 | Under that condition the result holds every changed entry's new digits in its own slot and is otherwise the old text |
| RewritingCases.UpperCaseExtractedAndMissed | citizenchain/scripts/rederive_accounts.py:183-211 | A line whose upper-case address is extracted in lower case and then not found by any replacement |
| RewritingCases.NewAddressReplacedAgain | citizenchain/scripts/rederive_accounts.py:276-285 | Two extracted lines of which the first gets the old digits of the second: the first is rewritten twice and the second never |
| RewritingCases.UnextractedReplaced | citizenchain/scripts/rederive_accounts.py:183-211 | A literal in front of the first number is not extracted, and is rewritten instead of the extracted one with the same digits |
| RewritingCases.NumberCarriedOver | citizenchain/scripts/rederive_accounts.py:189-210 | Number and address on two lines: the address is found under the number |
| RewritingCases.LiteralSpelled | citizenchain/scripts/rederive_accounts.py:276-306 | The three literals the rewrite looks for, written out |
| Extraction.Extract | citizenchain/scripts/rederive_accounts.py:183-272 | The loop over lines, carrying the current number, is `Extracted` |
| ExtractedLines.ExtractedExactly | citizenchain/scripts/rederive_accounts.py:183-272 | An address is found exactly when it is the one of a line, under the number of the last line with one up to there, where for main and stake accounts no line in between has an address |
| ExtractedLines.LinesDivide | citizenchain/scripts/rederive_accounts.py:185-193 | The lines are the parts of the text between its line breaks, in order |
| ExtractedLines.CidSearch | citizenchain/scripts/rederive_accounts.py:183-192 | A line has a number exactly when the field's name, white space and a non-empty quoted text stand in it, and its number is the leftmost such text |
| ExtractedLines.AddressSearch | citizenchain/scripts/rederive_accounts.py:183-196 | A line has an address exactly when the field's name, white space and the macro with 64 hexadecimal digits of either case stand in it, and its address is the leftmost |
| Extraction.FoundInOrder | citizenchain/scripts/rederive_accounts.py:183-272 | Addresses are found in text order on ascending lines, without overlap, as 64 lower-case digits |
| Reextraction.ExtractionKept | citizenchain/scripts/rederive_accounts.py:183-272 | Two texts that differ only in digits of literals yield the same numbers, lines and places |
| Reextraction.SecondExtractionReportsNoChange | citizenchain/scripts/rederive_accounts.py:183-306 | Extract, rewrite, extract again: the same numbers on the same lines, and every address found is the derived one |
| Independence.KindsAreIndependent | citizenchain/scripts/rederive_accounts.py:392-456 | Rewriting one kind of address settles it and leaves every other kind as ready and as settled as it was |
| Independence.ApplySettlesTheFile | citizenchain/scripts/rederive_accounts.py:392-456 | After the three rewrites of one file no kind of extraction reports a change |
| ReservedTable.HexKeepsOrder | citizenchain/scripts/rederive_accounts.py:340-353 | Text order of lower-case digits is byte order of the arrays |
| ReservedTable.OneListing | citizenchain/scripts/rederive_accounts.py:340 | A set of digit strings has only one strictly ascending listing |
| ReservedTable.TableHoldsExactly | citizenchain/scripts/rederive_accounts.py:337-355 | The generated array is strictly ascending and holds exactly the addresses whose digits were listed |
| ReservedTable.Search | citizenchain/scripts/rederive_accounts.py:357-361 | A binary search of any strictly ascending array finds exactly its members |
| ReservedTable.IsReserved | citizenchain/runtime/primitives/cid/china/china_zb.rs:653-655 | The generated function answers true exactly for the addresses that were collected |
| Base64.JoinUndoesSplit | citizenapp/ios/Runner/SecureEnclaveKeyStore.swift:51 | Regrouping bits into sextets and back is the identity on all byte strings |
| Base64.SplitKeepsNumber | citizenapp/ios/Runner/SecureEnclaveKeyStore.swift:51 | The sextets, most significant first, denote the number the bytes denote |
| Base64.AlphabetTable | citizenapp/ios/Runner/SecureEnclaveKeyStore.swift:51-54 | Every sextet is written as its character of the two tables of RFC 4648 |
| Base64.DecodeUndoesEncode | citizenserve/src/contacts.ts:249-254 | What is encoded as unpadded base64url is decoded to the same bytes |
| Base64.ParseBase64UrlExactly | citizenserve/src/contacts.ts:238-263 | Accepts exactly the non-empty alphabet strings of length n with n mod 4 not 1 and floor(3n/4) within the bounds |
| Base64.CidTagsInjective | citizenapp/ios/Runner/SecureEnclaveKeyStore.swift:46-56 | Within a namespace different CIDs have different tags |
| Base64.CidTagIsNoWalletTag | citizenapp/ios/Runner/SecureEnclaveKeyStore.swift:38-56 | Within a namespace no CID tag is a wallet tag, and wallet tags tell indexes apart |
| Base64.TagsExactly | citizenapp/ios/Runner/SecureEnclaveKeyStore.swift:38-56 | Exactly the CIDs of 1 to 32 bytes and the non-negative indexes have a tag, and a tag ends in the encoded CID or the decimal index |
| Base64.TagsMeetExactly | citizenapp/ios/Runner/SecureEnclaveKeyStore.swift:38-56 | For every accepted CID a CID tag is a wallet tag if and only if the wallet's namespace is the CID's with `.cid` appended and the encoded CID is the wallet's index in decimal |
| Base64.NamespacesApart | citizenapp/ios/Runner/SecureEnclaveKeyStore.swift:38-56 | No CID tag, whatever its namespace, is a wallet tag of the namespaces the app passes (`device_data_key` at DeviceDataKeyVaultChannel.swift:34, `device_subkey` at DeviceSubkeyChannel.swift:85) |
| Base64.TagsMeetAcrossNamespaces | citizenapp/ios/Runner/SecureEnclaveKeyStore.swift:42-55 | A CID tag in one namespace equals a wallet tag in another |

## Left out

- Hashes, HMAC, signatures and key derivation: parameters, or not part of this model (`derive_*`, `blake2_*`, `requireCitizenServeRequestSignature`).
- HTTP: bodies are modelled with their fields already typed; unknown fields, JSON syntax, URL decoding, size limits of bodies and the session lookup are not part of this model.
- SQL: a statement is one atomic step on a map. A contact request is split at the guard's check of the binding and its statement, a publication request at its two statements; a page of a listing is one statement.
- `atob` skips ASCII white space, which `BASE64URL_PATTERN` has already excluded; the skipping is not modelled.
- Contact rows are also removed when an account is purged (`citizenserve/src/account/purge.ts`); that is not a step of the contact runs. Deletes between the pages of a walk are not part of the paging theorems.
- Re-binding itself is an environment step that raises the revision; that an account belongs to one CID at a time is not part of this model.
- UTF-8: a predicate passed as parameter that holds of ASCII text and of the encoded names.
- The law and constitution encoders have no counterpart beyond the seeds in the script's self-test; they are written from the SCALE rules for the fields the parsers read.
- RPC, JSON chain specifications, storage keys and the mapping from keys to values in the genesis script.
- FastStart.IsFastStart: files of 2^63 bytes or more are excluded, because no file handle reports such a size.
- ChunkOffsets.PatchBoxes: behind a nested 64-bit length whose end is no `Long`, of a box that is no table, the code goes back to an earlier offset and need not end (`RelocationCases.EndlessWalk`); the model stops there with an outcome of its own.
- MovieTrees.ForestPatched: a table of 2^31 entries or more and an array of 2^63 bytes or more are excluded, because no array of the platform holds them.
- ChunkTables.OffsetsMovedExactly: says nothing where that happens, for the same reason.
- RelocationTheorem.OptimizedExactly: calls that outcome unmodelled, for the same reason.
- Relocation.Optimize: the same outcome; a temporary file that cannot be written or renamed, and a file that changes while it is read.
- Reading a file header by header: a file is one byte string; a read that returns fewer bytes than the file has is not part of this model.
- AVFoundation: the reader is a track with a final status, the writer an input that accepts or refuses a sample, and finishing the writer succeeds or fails as the environment decides; cover images, codecs and colours are not modelled.
- The task slot of the transcoder (`transcode`, `finishTask`, `cancel`): `finishTask` clears the slot whoever owns it, so mutual exclusion holds only without cancellation, which would add nothing to the pump theorems.
- `std::string` keeps short texts inside the object and a moved-from short string may keep its characters; buffers here are always on the heap. A variant may reuse its buffer on assignment; the model allocates a new one.
- SecretValue.Value.Assign: assigning a value from inside its own tree is excluded: the code wipes the source before it copies it, and what the standard library's assignment of a list from inside itself then does is undefined.
- SecretValue.Value.MoveAssign: moving a value out of the target's own tree is excluded for the same reason.
- Numbers in the stored audit cursor are integers; the audit's log lines are left out.
- `rewrite_safety_fund` and `rewrite_he`: one regular-expression substitution each, not first-occurrence replacement.
- Universal newlines and text codecs when Python reads and writes a source file.
- Rust's `binary_search` is the standard library's; `ReservedTable.Search` is the textbook loop with the same answer.
- The lines of the generated file around the table are constant text.
- Pallets, runtime wiring, SDK headers without bodies and user interfaces.
