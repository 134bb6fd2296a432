/** Document rows and their access lists, as `DocumentRepository` reads and writes them. */
module Documents {
  import opened Wrappers
  import opened Rbac

  datatype Document = Document(ownerId: string, visibility: string, collectionId: Option<string>)

  /** A row of a document's team list or user list. */
  datatype Access = Access(documentId: string, memberId: string)

  datatype Db = Db(docs: map<string, Document>, teamAccess: seq<Access>, userAccess: seq<Access>)

  /** The values the visibility column accepts. */
  const VISIBILITIES := {"public", "internal", "team", "channel", "confidential"}

  /** A rule is registered for each of them and for no other level. */
  lemma LevelsAreRegistered()
    ensures VISIBILITIES == BUILTIN.rules.Keys
  {
  }

  // ---------------------------------------------------------------- access rows

  function Members(rows: seq<Access>, id: string): seq<string> {
    if rows == [] then []
    else (if rows[0].documentId == id then [rows[0].memberId] else []) + Members(rows[1..], id)
  }

  function Others(rows: seq<Access>, id: string): seq<Access> {
    if rows == [] then []
    else (if rows[0].documentId == id then [] else [rows[0]]) + Others(rows[1..], id)
  }

  function RowsFor(id: string, members: seq<string>): seq<Access> {
    seq(|members|, i requires 0 <= i < |members| => Access(id, members[i]))
  }

  function WithMembers(rows: seq<Access>, id: string, members: seq<string>): seq<Access> {
    Others(rows, id) + RowsFor(id, members)
  }

  predicate Distinct<T(==)>(s: seq<T>) {
    forall i, j :: 0 <= i < j < |s| ==> s[i] != s[j]
  }

  /** No (document, member) pair is stored twice. */
  ghost predicate UniqueRows(rows: seq<Access>) {
    forall id :: Distinct(Members(rows, id))
  }

  lemma Assoc<T>(a: seq<T>, b: seq<T>, c: seq<T>)
    ensures a + (b + c) == (a + b) + c
  {
  }

  lemma {:induction false} MembersConcat(a: seq<Access>, b: seq<Access>, id: string)
    ensures Members(a + b, id) == Members(a, id) + Members(b, id)
  {
    if a == [] {
      assert a + b == b;
    } else {
      var head := if a[0].documentId == id then [a[0].memberId] else [];
      assert (a + b)[1..] == a[1..] + b;
      assert Members(a + b, id) == head + Members(a[1..] + b, id);
      assert Members(a, id) == head + Members(a[1..], id);
      hide *;
      MembersConcat(a[1..], b, id);
      Assoc(head, Members(a[1..], id), Members(b, id));
    }
  }

  lemma {:induction false} MembersOfOthers(rows: seq<Access>, id: string, d: string)
    ensures Members(Others(rows, id), d) == if d == id then [] else Members(rows, d)
  {
    if rows != [] {
      MembersOfOthers(rows[1..], id, d);
      MembersConcat(if rows[0].documentId == id then [] else [rows[0]], Others(rows[1..], id), d);
    }
  }

  lemma {:induction false} MembersOfRowsFor(id: string, members: seq<string>, d: string)
    ensures Members(RowsFor(id, members), d) == if d == id then members else []
  {
    if members != [] {
      assert RowsFor(id, members)[1..] == RowsFor(id, members[1..]);
      MembersOfRowsFor(id, members[1..], d);
    }
  }

  /** Rewriting one document's list sets that list and leaves every other document's list alone. */
  lemma MembersAfterWrite(rows: seq<Access>, id: string, members: seq<string>, d: string)
    ensures Members(WithMembers(rows, id, members), d) == if d == id then members else Members(rows, d)
  {
    MembersConcat(Others(rows, id), RowsFor(id, members), d);
    MembersOfOthers(rows, id, d);
    MembersOfRowsFor(id, members, d);
  }

  lemma UniqueAfterWrite(rows: seq<Access>, id: string, members: seq<string>)
    requires UniqueRows(rows) && Distinct(members)
    ensures UniqueRows(WithMembers(rows, id, members))
  {
    forall d ensures Distinct(Members(WithMembers(rows, id, members), d)) {
      MembersAfterWrite(rows, id, members, d);
    }
  }

  /** Two databases that no query by document can tell apart. */
  ghost predicate SameRows(a: Db, b: Db) {
    && a.docs == b.docs
    && (forall id :: Members(a.teamAccess, id) == Members(b.teamAccess, id))
    && (forall id :: Members(a.userAccess, id) == Members(b.userAccess, id))
  }

  ghost predicate ValidDb(db: Db) {
    && UniqueRows(db.teamAccess) && UniqueRows(db.userAccess)
    && (forall id :: id in db.docs ==> db.docs[id].visibility in VISIBILITIES)
  }

  // ---------------------------------------------------------------- the repository

  class DocumentRepository {
    var db: Db
    var transactionStart: Db  // what a rejected flush goes back to

    ghost predicate Valid()
      reads this
    {
      ValidDb(db) && ValidDb(transactionStart)
    }

    method GetById(id: string) returns (doc: Option<Document>)
      ensures doc == if id in db.docs then Some(db.docs[id]) else None
    {
      doc := if id in db.docs then Some(db.docs[id]) else None;
    }

    /** Writes the document's row; the flush rejects a visibility the column does not know. */
    method Update(id: string, doc: Document) returns (ok: bool)
      modifies this
      ensures ok <==> doc.visibility in VISIBILITIES
      ensures transactionStart == old(transactionStart)
      ensures db == if ok then old(db).(docs := old(db).docs[id := doc]) else transactionStart
    {
      ok := doc.visibility in VISIBILITIES;
      db := if ok then db.(docs := db.docs[id := doc]) else transactionStart;
    }

    /** Replaces the document's team rows; the flush rejects a team listed twice. */
    method SetTeamAccess(id: string, teamIds: seq<string>) returns (ok: bool)
      modifies this
      ensures ok <==> Distinct(teamIds)
      ensures transactionStart == old(transactionStart)
      ensures db ==
        if ok then old(db).(teamAccess := WithMembers(old(db).teamAccess, id, teamIds)) else transactionStart
    {
      var rows := Others(db.teamAccess, id);
      for i := 0 to |teamIds|
        invariant rows == Others(db.teamAccess, id) + RowsFor(id, teamIds[..i])
      {
        rows := rows + [Access(id, teamIds[i])];
        assert RowsFor(id, teamIds[..i + 1]) == RowsFor(id, teamIds[..i]) + [Access(id, teamIds[i])];
      }
      assert teamIds[..|teamIds|] == teamIds;
      ok := Distinct(teamIds);
      db := if ok then db.(teamAccess := rows) else transactionStart;
    }

    /** Replaces the document's user rows; the flush rejects a user listed twice. */
    method SetUserAccess(id: string, userIds: seq<string>) returns (ok: bool)
      modifies this
      ensures ok <==> Distinct(userIds)
      ensures transactionStart == old(transactionStart)
      ensures db ==
        if ok then old(db).(userAccess := WithMembers(old(db).userAccess, id, userIds)) else transactionStart
    {
      var rows := Others(db.userAccess, id);
      for i := 0 to |userIds|
        invariant rows == Others(db.userAccess, id) + RowsFor(id, userIds[..i])
      {
        rows := rows + [Access(id, userIds[i])];
        assert RowsFor(id, userIds[..i + 1]) == RowsFor(id, userIds[..i]) + [Access(id, userIds[i])];
      }
      assert userIds[..|userIds|] == userIds;
      ok := Distinct(userIds);
      db := if ok then db.(userAccess := rows) else transactionStart;
    }

    method TransferOwnership(id: string, newOwnerId: string)
      modifies this
      ensures transactionStart == old(transactionStart)
      ensures db == if id in old(db).docs
                    then old(db).(docs := old(db).docs[id := old(db).docs[id].(ownerId := newOwnerId)]) else old(db)
    {
      if id in db.docs {
        db := db.(docs := db.docs[id := db.docs[id].(ownerId := newOwnerId)]);
      }
    }
  }

  // ---------------------------------------------------------------- the listing predicate

  /** The condition of the listing query on one document row. */
  predicate ListedFor(db: Db, id: string, userId: string, teamIds: seq<string>)
    requires id in db.docs
  {
    var doc := db.docs[id];
    || doc.ownerId == userId
    || doc.visibility == "public"
    || (doc.visibility == "team" && exists r :: r in db.teamAccess && r.documentId == id && r.memberId in teamIds)
    || (doc.visibility == "confidential" &&
        exists r :: r in db.userAccess && r.documentId == id && r.memberId == userId)
  }

  /** What the access check is given for a database row; rows carry no company, so the caller supplies it. */
  function RowMeta(db: Db, id: string, company: Option<string>): DocMeta
    requires id in db.docs
  {
    DocMeta(Some(db.docs[id].ownerId), db.docs[id].visibility,
            Members(db.teamAccess, id), Members(db.userAccess, id), company)
  }

  lemma {:induction false} MemberIsRow(rows: seq<Access>, id: string, x: string)
    ensures x in Members(rows, id) <==> Access(id, x) in rows
  {
    if rows != [] {
      MemberIsRow(rows[1..], id, x);
      assert rows == [rows[0]] + rows[1..];
    }
  }

  /**
   For anyone but an administrator, a row is listed exactly when the access check passes and the
   document is not an internal or channel document of somebody else.
   */
  lemma ListedIffAllowed(db: Db, id: string, u: User, company: Option<string>)
    requires id in db.docs
    ensures ListedFor(db, id, u.userId, u.teamIds) ==>
      CheckDocumentAccess(BUILTIN, Some(u), RowMeta(db, id, company)) == Ok(true)
    ensures !IsAdmin(u) ==>
      (ListedFor(db, id, u.userId, u.teamIds) <==>
        && CheckDocumentAccess(BUILTIN, Some(u), RowMeta(db, id, company)) == Ok(true)
        && (db.docs[id].ownerId == u.userId || db.docs[id].visibility !in {"internal", "channel"}))
  {
    MemberIsRow(db.userAccess, id, u.userId);
    forall t
      ensures t in Members(db.teamAccess, id) <==> Access(id, t) in db.teamAccess
    {
      MemberIsRow(db.teamAccess, id, t);
    }
    assert (exists r :: r in db.userAccess && r.documentId == id && r.memberId == u.userId)
      <==> Access(id, u.userId) in db.userAccess;
    assert (exists r :: r in db.teamAccess && r.documentId == id && r.memberId in u.teamIds)
      <==> (exists t :: t in u.teamIds && t in Members(db.teamAccess, id)) by {
      if r :| r in db.teamAccess && r.documentId == id && r.memberId in u.teamIds {
        assert Access(id, r.memberId) == r;
      }
      if t :| t in u.teamIds && t in Members(db.teamAccess, id) {
        assert Access(id, t).memberId in u.teamIds;
      }
    }
  }
}
