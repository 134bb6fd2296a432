/**
 The service step that writes a document's access lists to the database and, flattened,
 to every chunk of the document in the vector store.
 */
module DocumentServices {
  import opened Wrappers
  import opened PipeList
  import opened Rbac
  import opened StoredMetadata
  import opened Documents

  // ---------------------------------------------------------------- the vector store and the audit log

  /** A stored chunk; its metadata names the document it belongs to. */
  datatype Chunk = Chunk(text: string, meta: Flat)

  predicate OfDocument(c: Chunk, documentId: string) {
    "document_id" in c.meta && c.meta["document_id"] == documentId
  }

  /** How the next call into the vector store ends: `StoreError` is its own error type, `OtherError` any other one. */
  datatype Fault = NoFault | StoreError | OtherError

  /** Every chunk of the document carries the update over what it held, and no other chunk changed. */
  function Merged(chunks: map<string, Chunk>, documentId: string, update: Flat): map<string, Chunk> {
    map c | c in chunks ::
      if OfDocument(chunks[c], documentId) then chunks[c].(meta := chunks[c].meta + update) else chunks[c]
  }

  /** What `key` reads as once the update is in: its new value if it has one, or else the old one. */
  function Updated(meta: Flat, update: Flat, key: string): string {
    if key in update then update[key] else Stored(meta, key)
  }

  /** `after` is `before` with the update in every chunk of the document, and in no other. */
  ghost predicate CarriesUpdate(before: map<string, Chunk>, after: map<string, Chunk>, documentId: string,
                                update: Flat) {
    && after.Keys == before.Keys
    && (forall c :: c in before && !OfDocument(before[c], documentId) ==> after[c] == before[c])
    && (forall c :: c in before && OfDocument(before[c], documentId) ==>
          after[c].text == before[c].text &&
          forall key :: Stored(after[c].meta, key) == Updated(before[c].meta, update, key))
  }

  lemma MergedCarriesUpdate(chunks: map<string, Chunk>, documentId: string, update: Flat)
    ensures CarriesUpdate(chunks, Merged(chunks, documentId, update), documentId, update)
  {
  }

  class VectorStore {
    var chunks: map<string, Chunk>

    /** The ids of a document's chunks, each once, and their metadata in the same order. */
    method Get(documentId: string) returns (ids: seq<string>, metas: seq<Flat>)
      ensures Distinct(ids) && forall c :: c in ids <==> c in chunks && OfDocument(chunks[c], documentId)
      ensures |metas| == |ids| && forall i :: 0 <= i < |ids| ==> metas[i] == chunks[ids[i]].meta
    {
      ids, metas := [], [];
      var left := chunks.Keys;
      while left != {}
        invariant left <= chunks.Keys && Distinct(ids)
        invariant forall c :: c in ids <==> c in chunks && c !in left && OfDocument(chunks[c], documentId)
        invariant |metas| == |ids| && forall i :: 0 <= i < |ids| ==> metas[i] == chunks[ids[i]].meta
        decreases left
      {
        var c :| c in left;
        left := left - {c};
        if OfDocument(chunks[c], documentId) {
          ids, metas := ids + [c], metas + [chunks[c].meta];
        }
      }
    }

    /** Puts new metadata in the place of the old, chunk by chunk. */
    method Update(ids: seq<string>, metas: seq<Flat>)
      requires |ids| == |metas| && Distinct(ids) && forall c :: c in ids ==> c in chunks
      modifies this
      ensures chunks.Keys == old(chunks).Keys
      ensures forall i :: 0 <= i < |ids| ==> chunks[ids[i]] == old(chunks)[ids[i]].(meta := metas[i])
      ensures forall c :: c in chunks && c !in ids ==> chunks[c] == old(chunks)[c]
    {
      for i := 0 to |ids|
        invariant chunks.Keys == old(chunks).Keys
        invariant forall j :: 0 <= j < i ==> chunks[ids[j]] == old(chunks)[ids[j]].(meta := metas[j])
        invariant forall c :: c in chunks && c !in ids[..i] ==> chunks[c] == old(chunks)[c]
      {
        chunks := chunks[ids[i] := chunks[ids[i]].(meta := metas[i])];
      }
      assert ids[..|ids|] == ids;
    }

    method UpdateMetadata(documentId: string, update: Flat, fault: Fault) returns (outcome: Fault)
      modifies this
      ensures outcome == fault
      ensures chunks == if fault.NoFault? then Merged(old(chunks), documentId, update) else old(chunks)
      ensures fault.NoFault? ==> CarriesUpdate(old(chunks), chunks, documentId, update)
    {
      MergedCarriesUpdate(chunks, documentId, update);
      if !fault.NoFault? {
        return fault;
      }
      var ids, metas := Get(documentId);
      if ids == [] {
        assert Merged(chunks, documentId, update) == chunks;
        return NoFault;
      }
      var updatedMetas := [];
      for i := 0 to |metas|
        invariant |updatedMetas| == i && forall j :: 0 <= j < i ==> updatedMetas[j] == metas[j] + update
      {
        updatedMetas := updatedMetas + [metas[i] + update];
      }
      Update(ids, updatedMetas);
      return NoFault;
    }
  }

  datatype Audit =
    | VisibilityChanged(documentId: string, userId: string,
                        oldVisibility: string, oldTeams: seq<string>, oldUsers: seq<string>,
                        newVisibility: string, newTeams: Option<seq<string>>, newUsers: Option<seq<string>>)
    | OwnershipTransferred(documentId: string, userId: string, oldOwner: string, newOwner: string)

  class AuditRepository {
    var log: seq<Audit>

    method LogDocumentChange(entry: Audit)
      modifies this
      ensures log == old(log) + [entry]
    {
      log := log + [entry];
    }
  }

  // ---------------------------------------------------------------- what a successful change writes

  /** The database after the three writes; a list that is not given keeps its rows. */
  function ChangedDb(db: Db, id: string, visibility: string, teams: Option<seq<string>>, users: Option<seq<string>>): Db
    requires id in db.docs
  {
    Db(db.docs[id := db.docs[id].(visibility := visibility)],
       if teams.Some? then WithMembers(db.teamAccess, id, teams.value) else db.teamAccess,
       if users.Some? then WithMembers(db.userAccess, id, users.value) else db.userAccess)
  }

  /** The database after a transfer. */
  function OwnedBy(db: Db, id: string, newOwner: string): Db
    requires id in db.docs
  {
    db.(docs := db.docs[id := db.docs[id].(ownerId := newOwner)])
  }

  function ListText(ids: Option<seq<string>>): string {
    if ids.Some? then Encode(ids.value) else ""
  }

  function AccessUpdate(visibility: string, teams: Option<seq<string>>, users: Option<seq<string>>): Flat {
    map["visibility" := visibility, "allowed_teams" := ListText(teams), "allowed_users" := ListText(users)]
  }

  predicate Writable(visibility: string, teams: Option<seq<string>>, users: Option<seq<string>>) {
    && visibility in VISIBILITIES
    && (teams.Some? ==> Distinct(teams.value))
    && (users.Some? ==> Distinct(users.value))
  }

  lemma ChangedDbValid(db: Db, id: string, visibility: string, teams: Option<seq<string>>, users: Option<seq<string>>)
    requires ValidDb(db) && id in db.docs && Writable(visibility, teams, users)
    ensures ValidDb(ChangedDb(db, id, visibility, teams, users))
  {
    if teams.Some? {
      UniqueAfterWrite(db.teamAccess, id, teams.value);
    }
    if users.Some? {
      UniqueAfterWrite(db.userAccess, id, users.value);
    }
  }

  lemma WriteUndone(rows: seq<Access>, id: string, written: Option<seq<string>>, restored: seq<Access>)
    requires restored ==
      WithMembers(if written.Some? then WithMembers(rows, id, written.value) else rows, id, Members(rows, id))
    ensures forall d :: Members(restored, d) == Members(rows, d)
  {
    forall d
      ensures Members(restored, d) == Members(rows, d)
    {
      MembersAfterWrite(if written.Some? then WithMembers(rows, id, written.value) else rows, id, Members(rows, id), d);
      if written.Some? {
        MembersAfterWrite(rows, id, written.value, d);
      }
    }
  }

  /** Writing the old row and the old lists over any change gives back the old answers to every query by document. */
  lemma RollBackRestores(db: Db, id: string, visibility: string, teams: Option<seq<string>>,
                         users: Option<seq<string>>, restored: Db)
    requires ValidDb(db) && id in db.docs
    requires restored == ChangedDb(ChangedDb(db, id, visibility, teams, users), id, db.docs[id].visibility,
                                   Some(Members(db.teamAccess, id)), Some(Members(db.userAccess, id)))
    ensures SameRows(restored, db) && ValidDb(restored)
  {
    hide WithMembers, Members;
    assert restored.docs == db.docs;
    WriteUndone(db.teamAccess, id, teams, restored.teamAccess);
    WriteUndone(db.userAccess, id, users, restored.userAccess);
  }

  /** The outcome of a call; every other value than `Done` is the exception that the call raises. */
  datatype Outcome = Done | NotFound | NotAuthorized | DatabaseRejected | VectorStoreFailed | OtherFailure

  // ---------------------------------------------------------------- the service

  class DocumentService {
    const docRepo: DocumentRepository
    const auditRepo: AuditRepository
    const vectorStore: VectorStore

    constructor (docRepo: DocumentRepository, auditRepo: AuditRepository, vectorStore: VectorStore)
      ensures this.docRepo == docRepo && this.auditRepo == auditRepo && this.vectorStore == vectorStore
    {
      this.docRepo, this.auditRepo, this.vectorStore := docRepo, auditRepo, vectorStore;
    }

    method ChangeVisibility(documentId: string, visibility: string, teamIds: Option<seq<string>>,
                            userIds: Option<seq<string>>, user: User, fault: Fault)
      returns (outcome: Outcome)
      requires docRepo.Valid()
      modifies docRepo, auditRepo, vectorStore
      ensures docRepo.Valid()
      ensures outcome ==
        if documentId !in old(docRepo.db).docs then NotFound
        else if old(docRepo.db).docs[documentId].ownerId != user.userId && "admin" !in user.roles then NotAuthorized
        else if !Writable(visibility, teamIds, userIds) then DatabaseRejected
        else match fault case NoFault => Done case StoreError => VectorStoreFailed case OtherError => OtherFailure
      ensures outcome.Done? || outcome.OtherFailure? ==>
        docRepo.db == ChangedDb(old(docRepo.db), documentId, visibility, teamIds, userIds)
        && RowsChanged(old(docRepo.db), docRepo.db, documentId, visibility, teamIds, userIds)
      ensures outcome.VectorStoreFailed? ==> SameRows(docRepo.db, old(docRepo.db))
      ensures outcome.NotFound? || outcome.NotAuthorized? ==> docRepo.db == old(docRepo.db)
      ensures outcome.DatabaseRejected? ==> docRepo.db == old(docRepo.transactionStart)
      ensures outcome.Done? ==>
        vectorStore.chunks == Merged(old(vectorStore.chunks), documentId, AccessUpdate(visibility, teamIds, userIds))
      ensures outcome.Done? ==> StoresAgree(old(vectorStore.chunks), vectorStore.chunks, old(docRepo.db), docRepo.db,
                                            documentId, visibility, teamIds, userIds)
      ensures outcome.Done? ==> auditRepo.log == old(auditRepo.log) + [VisibilityChanged(documentId, user.userId,
        old(docRepo.db).docs[documentId].visibility,
        Members(old(docRepo.db).teamAccess, documentId), Members(old(docRepo.db).userAccess, documentId),
        visibility, teamIds, userIds)]
      ensures !outcome.Done? ==> vectorStore.chunks == old(vectorStore.chunks) && auditRepo.log == old(auditRepo.log)
    {
      var found := docRepo.GetById(documentId);
      if found.None? {
        return NotFound;
      }
      var doc := found.value;
      if doc.ownerId != user.userId && "admin" !in user.roles {
        return NotAuthorized;
      }
      ghost var before, chunksBefore := docRepo.db, vectorStore.chunks;
      var oldTeams := Members(docRepo.db.teamAccess, documentId);
      var oldUsers := Members(docRepo.db.userAccess, documentId);

      var ok := docRepo.Update(documentId, doc.(visibility := visibility));
      if !ok {
        return DatabaseRejected;
      }
      if teamIds.Some? {
        ok := docRepo.SetTeamAccess(documentId, teamIds.value);
        if !ok {
          return DatabaseRejected;
        }
      }
      if userIds.Some? {
        ok := docRepo.SetUserAccess(documentId, userIds.value);
        if !ok {
          return DatabaseRejected;
        }
      }
      assert docRepo.db == ChangedDb(before, documentId, visibility, teamIds, userIds);
      ChangedDbValid(before, documentId, visibility, teamIds, userIds);
      ChangedDbRows(before, documentId, visibility, teamIds, userIds);
      hide RowsChanged, StoresAgree, CarriesUpdate;
      hide ValidDb, SameRows, WithMembers, Members;

      var update := map[
        "visibility" := visibility,
        "allowed_teams" := ListText(teamIds),
        "allowed_users" := ListText(userIds)];
      var ended := vectorStore.UpdateMetadata(documentId, update, fault);
      if ended.OtherError? {
        return OtherFailure;
      }
      if ended.StoreError? {
        ok := docRepo.Update(documentId, doc);
        ok := docRepo.SetTeamAccess(documentId, oldTeams);
        ok := docRepo.SetUserAccess(documentId, oldUsers);
        RollBackRestores(before, documentId, visibility, teamIds, userIds, docRepo.db);
        return VectorStoreFailed;
      }
      auditRepo.LogDocumentChange(VisibilityChanged(documentId, user.userId,
        doc.visibility, oldTeams, oldUsers, visibility, teamIds, userIds));
      StoresAgreeAfter(chunksBefore, before, documentId, visibility, teamIds, userIds);
      return Done;
    }

    method TransferOwnership(documentId: string, newOwnerId: string, user: User,
                             fault: Fault) returns (outcome: Outcome)
      requires docRepo.Valid()
      modifies docRepo, auditRepo, vectorStore
      ensures docRepo.Valid()
      ensures outcome ==
        if documentId !in old(docRepo.db).docs then NotFound
        else if old(docRepo.db).docs[documentId].ownerId != user.userId && "admin" !in user.roles then NotAuthorized
        else match fault case NoFault => Done case StoreError => VectorStoreFailed case OtherError => OtherFailure
      ensures outcome.NotFound? || outcome.NotAuthorized? ==> docRepo.db == old(docRepo.db)
      ensures outcome.Done? || outcome.VectorStoreFailed? || outcome.OtherFailure? ==>
        docRepo.db == OwnedBy(old(docRepo.db), documentId, newOwnerId)
      ensures vectorStore.chunks ==
        if outcome.Done? then Merged(old(vectorStore.chunks), documentId, map["owner_id" := newOwnerId])
        else old(vectorStore.chunks)
      ensures outcome.Done? ==>
        KeptInStep(old(vectorStore.chunks), vectorStore.chunks, old(docRepo.db), docRepo.db, documentId)
      ensures outcome.VectorStoreFailed? || outcome.OtherFailure? ==>
        (exists c, company ::
           c in vectorStore.chunks && InStep(old(docRepo.db), documentId, company, vectorStore.chunks[c])) ==>
        (KeptInStep(vectorStore.chunks, vectorStore.chunks, old(docRepo.db), docRepo.db, documentId)
         <==> newOwnerId == old(docRepo.db).docs[documentId].ownerId)
      ensures auditRepo.log == old(auditRepo.log) +
        if outcome.Done?
        then [OwnershipTransferred(documentId, user.userId, old(docRepo.db).docs[documentId].ownerId, newOwnerId)]
        else []
    {
      var found := docRepo.GetById(documentId);
      if found.None? {
        return NotFound;
      }
      var doc := found.value;
      if doc.ownerId != user.userId && "admin" !in user.roles {
        return NotAuthorized;
      }
      KeptInStepByTransfer(vectorStore.chunks, docRepo.db, documentId, newOwnerId);
      docRepo.TransferOwnership(documentId, newOwnerId);
      hide KeptInStep, CarriesUpdate, InStep;
      var ended := vectorStore.UpdateMetadata(documentId, map["owner_id" := newOwnerId], fault);
      if !ended.NoFault? {
        return if ended.StoreError? then VectorStoreFailed else OtherFailure;
      }
      auditRepo.LogDocumentChange(OwnershipTransferred(documentId, user.userId, doc.ownerId, newOwnerId));
      return Done;
    }
  }

  // ---------------------------------------------------------------- filter and check after the change

  /** Row and lists of the document are the new ones, or the old ones where none is given; no other document changes. */
  ghost predicate RowsChanged(before: Db, after: Db, id: string, visibility: string, teams: Option<seq<string>>,
                              users: Option<seq<string>>)
    requires id in before.docs
  {
    && after.docs == before.docs[id := before.docs[id].(visibility := visibility)]
    && (forall d :: Members(after.teamAccess, d) ==
          if d == id && teams.Some? then teams.value else Members(before.teamAccess, d))
    && (forall d :: Members(after.userAccess, d) ==
          if d == id && users.Some? then users.value else Members(before.userAccess, d))
  }

  lemma ChangedDbRows(db: Db, id: string, visibility: string, teams: Option<seq<string>>, users: Option<seq<string>>)
    requires id in db.docs
    ensures RowsChanged(db, ChangedDb(db, id, visibility, teams, users), id, visibility, teams, users)
  {
    forall d
      ensures teams.Some? ==>
        Members(WithMembers(db.teamAccess, id, teams.value), d) ==
          if d == id then teams.value else Members(db.teamAccess, d)
      ensures users.Some? ==>
        Members(WithMembers(db.userAccess, id, users.value), d) ==
          if d == id then users.value else Members(db.userAccess, d)
    {
      if teams.Some? {
        MembersAfterWrite(db.teamAccess, id, teams.value, d);
      }
      if users.Some? {
        MembersAfterWrite(db.userAccess, id, users.value, d);
      }
    }
    hide Members, WithMembers;
  }

  /** The document's chunk carries the owner of its row and the company the check is given. */
  predicate InStep(db: Db, id: string, company: Option<string>, chunk: Chunk)
    requires id in db.docs
  {
    && OfDocument(chunk, id)
    && Stored(chunk.meta, "owner_id") == db.docs[id].ownerId
    && Stored(chunk.meta, "company_id") == TextOf(company)
  }

  predicate Given(ids: Option<seq<string>>) {
    ids.Some? ==> forall id :: id in ids.value ==> CleanId(id)
  }

  /** The chunk's metadata, read as a filter reads it, lets `u` in exactly when the database rows do. */
  ghost predicate AgreeFor(reading: Reading, flat: Flat, db: Db, id: string, company: Option<string>, u: User)
    requires id in db.docs
  {
    assert BUILTIN.Valid() by { BuiltinFilterAgreesWithCheck(u, RowMeta(db, id, company)); }
    (StoredFilterMatches(reading, flat, VisibilityFilter(BUILTIN, u)) <==>
     CheckDocumentAccess(BUILTIN, Some(u), RowMeta(db, id, company)) == Ok(true))
  }

  /** What the chunk holds after the change: the lists that were given, and empty lists for those that were not. */
  function ChunkMeta(db: Db, id: string, visibility: string, teams: Option<seq<string>>, users: Option<seq<string>>,
                     company: Option<string>): DocMeta
    requires id in db.docs
  {
    DocMeta(Some(db.docs[id].ownerId), visibility,
            if teams.Some? then teams.value else [], if users.Some? then users.value else [], company)
  }

  lemma UpdatedChunkHolds(db: Db, id: string, company: Option<string>, chunk: Chunk,
                          visibility: string, teams: Option<seq<string>>, users: Option<seq<string>>)
    requires id in db.docs && InStep(db, id, company, chunk) && Given(teams) && Given(users)
    ensures Holds(chunk.meta + AccessUpdate(visibility, teams, users),
                  ChunkMeta(db, id, visibility, teams, users, company))
  {
  }

  lemma ChangedRowMeta(db: Db, id: string, company: Option<string>, visibility: string, teams: Option<seq<string>>,
                       users: Option<seq<string>>)
    requires id in db.docs
    ensures RowMeta(ChangedDb(db, id, visibility, teams, users), id, company) ==
      DocMeta(Some(db.docs[id].ownerId), visibility,
              if teams.Some? then teams.value else Members(db.teamAccess, id),
              if users.Some? then users.value else Members(db.userAccess, id), company)
  {
    if teams.Some? {
      MembersAfterWrite(db.teamAccess, id, teams.value, id);
    }
    if users.Some? {
      MembersAfterWrite(db.userAccess, id, users.value, id);
    }
  }

  /**
   After a successful change, stored metadata and database rows answer alike for one user exactly when the
   rows kept for a list that was not given do not let that user in on the new level.
   */
  lemma AgreementAfterChange(reading: Reading, db: Db, id: string, company: Option<string>, chunk: Chunk,
                             visibility: string, teams: Option<seq<string>>, users: Option<seq<string>>, u: User)
    requires id in db.docs && InStep(db, id, company, chunk)
    requires visibility in VISIBILITIES && Given(teams) && Given(users)
    requires CleanUser(u) && company != Some(NO_MATCH)
    ensures AgreeFor(reading, chunk.meta + AccessUpdate(visibility, teams, users),
                     ChangedDb(db, id, visibility, teams, users), id, company, u)
       <==> (IsAdmin(u) || db.docs[id].ownerId == u.userId || !LetInByKeptRows(db, id, visibility, teams, users, u))
  {
    var flat := chunk.meta + AccessUpdate(visibility, teams, users);
    var inChunk := ChunkMeta(db, id, visibility, teams, users, company);
    UpdatedChunkHolds(db, id, company, chunk, visibility, teams, users);
    BuiltinReadingAgrees(reading, flat, inChunk, u);
    BuiltinFilterAgreesWithCheck(u, inChunk);
    CheckAfterChange(db, id, company, visibility, teams, users, u);
    assert !MarkerClash(u, inChunk);
    hide Holds, Stored, ChunkMeta, ChangedDb, RowMeta, CheckDocumentAccess, LetInByKeptRows;
    hide VisibilityFilter, FilterMatches;
  }

  lemma CheckAfterChange(db: Db, id: string, company: Option<string>,
                         visibility: string, teams: Option<seq<string>>, users: Option<seq<string>>, u: User)
    requires id in db.docs && visibility in VISIBILITIES
    ensures var inChunk := ChunkMeta(db, id, visibility, teams, users, company);
      var inRows := RowMeta(ChangedDb(db, id, visibility, teams, users), id, company);
      (CheckDocumentAccess(BUILTIN, Some(u), inChunk) == Ok(true)
       <==> CheckDocumentAccess(BUILTIN, Some(u), inRows) == Ok(true))
       <==> (IsAdmin(u) || db.docs[id].ownerId == u.userId || !LetInByKeptRows(db, id, visibility, teams, users, u))
  {
    ChangedRowMeta(db, id, company, visibility, teams, users);
    CheckMeaning(u, ChunkMeta(db, id, visibility, teams, users, company));
    CheckMeaning(u, RowMeta(ChangedDb(db, id, visibility, teams, users), id, company));
    hide Members, ChangedDb, RowMeta, CheckDocumentAccess, HasCompany, IsAdmin;
  }

  predicate LetInByKeptRows(db: Db, id: string, visibility: string, teams: Option<seq<string>>,
                            users: Option<seq<string>>, u: User) {
    || (visibility == "team" && teams.None? && exists t :: t in u.teamIds && t in Members(db.teamAccess, id))
    || (visibility in {"confidential", "channel"} && users.None? && u.userId in Members(db.userAccess, id))
  }

  /** Nothing the change left in place matters on the new level. */
  predicate KeptRowsHarmless(db: Db, id: string, visibility: string, teams: Option<seq<string>>,
                             users: Option<seq<string>>)
    requires id in db.docs
  {
    && (visibility == "team" && teams.None? ==> Members(db.teamAccess, id) == [])
    && (visibility in {"confidential", "channel"} && users.None? ==>
          forall x :: x in Members(db.userAccess, id) ==> x == db.docs[id].ownerId)
  }

  /** Every user gets the same answer from both stores exactly when the lists that were not given had nothing to say. */
  lemma AgreementForEveryUser(reading: Reading, db: Db, id: string, company: Option<string>, chunk: Chunk,
                              visibility: string, teams: Option<seq<string>>, users: Option<seq<string>>)
    requires id in db.docs && InStep(db, id, company, chunk)
    requires visibility in VISIBILITIES && Given(teams) && Given(users) && company != Some(NO_MATCH)
    requires Given(Some(Members(db.teamAccess, id))) && Given(Some(Members(db.userAccess, id)))
    ensures (forall u :: CleanUser(u) ==>
        AgreeFor(reading, chunk.meta + AccessUpdate(visibility, teams, users),
                 ChangedDb(db, id, visibility, teams, users), id, company, u))
       <==> KeptRowsHarmless(db, id, visibility, teams, users)
  {
    forall u | CleanUser(u)
      ensures AgreeFor(reading, chunk.meta + AccessUpdate(visibility, teams, users),
                       ChangedDb(db, id, visibility, teams, users), id, company, u)
        <==> (IsAdmin(u) || db.docs[id].ownerId == u.userId || !LetInByKeptRows(db, id, visibility, teams, users, u))
    {
      AgreementAfterChange(reading, db, id, company, chunk, visibility, teams, users, u);
    }
    if !KeptRowsHarmless(db, id, visibility, teams, users) {
      var u := LockedOut(db, id, visibility, teams, users);
      assert CleanUser(u);
    }
    hide AgreeFor, InStep, ChangedDb, AccessUpdate;
  }

  /** Every chunk that was in step with the document's row still is. */
  ghost predicate KeptInStep(chunks: map<string, Chunk>, chunks': map<string, Chunk>, before: Db, after: Db, id: string)
    requires id in before.docs && id in after.docs
  {
    forall c, company :: c in chunks && InStep(before, id, company, chunks[c]) ==>
      c in chunks' && InStep(after, id, company, chunks'[c])
  }

  lemma KeptInStepByTransfer(chunks: map<string, Chunk>, db: Db, id: string, newOwner: string)
    requires id in db.docs
    ensures KeptInStep(chunks, Merged(chunks, id, map["owner_id" := newOwner]), db, OwnedBy(db, id, newOwner), id)
    ensures (exists c, company :: c in chunks && InStep(db, id, company, chunks[c])) ==>
      (KeptInStep(chunks, chunks, db, OwnedBy(db, id, newOwner), id) <==> newOwner == db.docs[id].ownerId)
  {
    forall c, company | c in chunks && InStep(db, id, company, chunks[c])
      ensures InStep(OwnedBy(db, id, newOwner), id, company, Merged(chunks, id, map["owner_id" := newOwner])[c])
      ensures InStep(OwnedBy(db, id, newOwner), id, company, chunks[c]) <==> newOwner == db.docs[id].ownerId
    {
      InStepAfter(db, id, company, chunks[c], "", None, None, newOwner);
    }
    hide InStep, Merged, OwnedBy;
  }

  /** For one user and chunk: stored metadata and rows answer alike, unless kept rows let the user in. */
  ghost predicate AgreesUnlessKept(reading: Reading, flat: Flat, before: Db, after: Db, id: string,
                                   company: Option<string>,
                                   visibility: string, teams: Option<seq<string>>, users: Option<seq<string>>, u: User)
    requires id in before.docs && id in after.docs
  {
    AgreeFor(reading, flat, after, id, company, u)
    <==> (IsAdmin(u) || before.docs[id].ownerId == u.userId
          || !LetInByKeptRows(before, id, visibility, teams, users, u))
  }

  /**
   Every chunk that was in step with the document's row still is, and whatever reads it answers every user like the
   check on the rows, unless rows that were kept let the user in.
   */
  ghost predicate StoresAgree(chunks: map<string, Chunk>, chunks': map<string, Chunk>, before: Db, after: Db,
                              id: string,
                              visibility: string, teams: Option<seq<string>>, users: Option<seq<string>>)
    requires id in before.docs && id in after.docs
  {
    && KeptInStep(chunks, chunks', before, after, id)
    && (Given(teams) && Given(users) ==>
          forall reading, c, company, u ::
            c in chunks && c in chunks' && InStep(before, id, company, chunks[c])
            && CleanUser(u) && company != Some(NO_MATCH) ==>
              AgreesUnlessKept(reading, chunks'[c].meta, before, after, id, company, visibility, teams, users, u))
  }

  lemma StoresAgreeAfter(chunks: map<string, Chunk>, db: Db, id: string,
                         visibility: string, teams: Option<seq<string>>, users: Option<seq<string>>)
    requires id in db.docs && visibility in VISIBILITIES
    ensures StoresAgree(chunks, Merged(chunks, id, AccessUpdate(visibility, teams, users)),
                        db, ChangedDb(db, id, visibility, teams, users), id, visibility, teams, users)
  {
    var update, after := AccessUpdate(visibility, teams, users), ChangedDb(db, id, visibility, teams, users);
    var chunks' := Merged(chunks, id, update);
    forall c, company | c in chunks && InStep(db, id, company, chunks[c])
      ensures chunks'[c].meta == chunks[c].meta + update && InStep(after, id, company, chunks'[c])
    {
      InStepAfter(db, id, company, chunks[c], visibility, teams, users, "");
    }
    if Given(teams) && Given(users) {
      forall reading, c, company, u |
        c in chunks && c in chunks' && InStep(db, id, company, chunks[c]) && CleanUser(u) && company != Some(NO_MATCH)
        ensures AgreesUnlessKept(reading, chunks'[c].meta, db, after, id, company, visibility, teams, users, u)
      {
        assert chunks'[c].meta == chunks[c].meta + update;
        AgreementAfterChange(reading, db, id, company, chunks[c], visibility, teams, users, u);
      }
    }
    hide InStep, AgreesUnlessKept, Merged, ChangedDb;
  }

  /** A user whom the kept rows let in although the stored metadata does not. */
  lemma LockedOut(db: Db, id: string, visibility: string, teams: Option<seq<string>>,
                  users: Option<seq<string>>) returns (u: User)
    requires id in db.docs && !KeptRowsHarmless(db, id, visibility, teams, users)
    requires Given(Some(Members(db.teamAccess, id))) && Given(Some(Members(db.userAccess, id)))
    ensures CleanUser(u) && !IsAdmin(u) && db.docs[id].ownerId != u.userId
    ensures LetInByKeptRows(db, id, visibility, teams, users, u)
  {
    if visibility == "team" {
      var name := if db.docs[id].ownerId == "a" then "b" else "a";
      var team := Members(db.teamAccess, id)[0];
      u := User(name, [], [team], None, false);
      assert team in u.teamIds && team in Members(db.teamAccess, id);
    } else {
      var x :| x in Members(db.userAccess, id) && x != db.docs[id].ownerId;
      u := User(x, [], [], None, false);
    }
  }

  /**
   Both operations leave owner and company of row and chunk in step; a transfer whose second write fails does
   not, unless it was to the owner.
   */
  lemma InStepAfter(db: Db, id: string, company: Option<string>, chunk: Chunk,
                    visibility: string, teams: Option<seq<string>>, users: Option<seq<string>>, newOwner: string)
    requires id in db.docs && InStep(db, id, company, chunk)
    ensures InStep(ChangedDb(db, id, visibility, teams, users), id, company,
                   chunk.(meta := chunk.meta + AccessUpdate(visibility, teams, users)))
    ensures var transferred := OwnedBy(db, id, newOwner);
      && InStep(transferred, id, company, chunk.(meta := chunk.meta + map["owner_id" := newOwner]))
      && (InStep(transferred, id, company, chunk) <==> newOwner == db.docs[id].ownerId)
  {
  }

  /**
   Checked without its company, an internal document passes only for its owner and administrators. So the
   check and the filter, which knows the company, differ exactly for everyone else in that company.
   */
  lemma InternalCheckNeedsCompany(u: User, owner: string, teams: seq<string>, users: seq<string>, company: string)
    ensures BUILTIN.Valid()
    ensures CheckDocumentAccess(BUILTIN, Some(u), DocMeta(Some(owner), "internal", teams, users, None)) == Ok(true)
      <==> IsAdmin(u) || owner == u.userId
    ensures
      (CheckDocumentAccess(BUILTIN, Some(u), DocMeta(Some(owner), "internal", teams, users, None)) == Ok(true)
       <==> FilterMatches(DocMeta(Some(owner), "internal", teams, users, Some(company)), VisibilityFilter(BUILTIN, u)))
      <==> (IsAdmin(u) || owner == u.userId || company != if HasCompany(u) then u.companyId.value else NO_MATCH)
  {
    BuiltinFilterAgreesWithCheck(u, DocMeta(Some(owner), "internal", teams, users, Some(company)));
  }
}
