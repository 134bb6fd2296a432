/**
 The two places that evaluate an access filter against flat, string-valued chunk metadata:
 the keyword search filter and the post-filter of the ChromaDB store.
 */
module StoredMetadata {
  import opened Wrappers
  import opened Text
  import opened PipeList
  import opened Rbac

  type Flat = map<string, string>

  /** `Raw` looks for `|id|` in the stored string, `Wrapped` in the stored string between two more delimiters. */
  datatype Reading = Raw | Wrapped

  function Stored(flat: Flat, key: string): string {
    if key in flat then flat[key] else ""
  }

  function ReadAs(reading: Reading, stored: string): string {
    match reading
    case Raw => stored
    case Wrapped => "|" + stored + "|"
  }

  predicate StoredFieldMatches(reading: Reading, flat: Flat, key: string, v: FilterValue) {
    var stored := Stored(flat, key);
    if key == "allowed_teams" || key == "allowed_users" then
      match v
      case AnyOf(ids) => exists id :: id in ids && Contains(ReadAs(reading, stored), Needle(id))
      case Scalar(text) => Contains(ReadAs(reading, stored), if reading.Wrapped? then Needle(text) else text)
    else
      v == Scalar(stored)
  }

  predicate StoredClauseMatches(reading: Reading, flat: Flat, c: Clause) {
    forall key :: key in c ==> StoredFieldMatches(reading, flat, key, c[key])
  }

  predicate StoredFilterMatches(reading: Reading, flat: Flat, f: Filter) {
    match f
    case MatchAll => true
    case Just(c) => StoredClauseMatches(reading, flat, c)
    case Either(cs) => exists i :: 0 <= i < |cs| && StoredClauseMatches(reading, flat, cs[i])
  }

  // ---------------------------------------------------------------- flattening

  /** A metadata value before it is stored. */
  datatype Value = Text(text: string) | List(ids: seq<string>) | Null

  function FlatValue(v: Value): string {
    match v
    case Text(text) => text
    case List(ids) => Encode(ids)
    case Null => ""
  }

  function Flattened(meta: map<string, Value>): Flat {
    map key | key in meta :: FlatValue(meta[key])
  }

  method FlattenMeta(meta: map<string, Value>) returns (flat: Flat)
    ensures flat == Flattened(meta)
  {
    flat := map[];
    var left := meta.Keys;
    while left != {}
      invariant left <= meta.Keys && flat == map key | key in meta && key !in left :: FlatValue(meta[key])
      decreases left
    {
      var key :| key in left;
      flat := flat[key := FlatValue(meta[key])];
      left := left - {key};
    }
  }

  // ---------------------------------------------------------------- agreement with the readings of typed metadata

  /** `flat` holds the fields of `m`: a missing scalar as the empty string, a list in its delimited form. */
  predicate Holds(flat: Flat, m: DocMeta) {
    && Stored(flat, "owner_id") == TextOf(m.ownerId)
    && Stored(flat, "visibility") == m.visibility
    && Stored(flat, "company_id") == TextOf(m.companyId)
    && Stored(flat, "allowed_teams") == Encode(m.allowedTeams)
    && Stored(flat, "allowed_users") == Encode(m.allowedUsers)
    && AllPipeFree(m.allowedTeams) && AllPipeFree(m.allowedUsers)
  }

  function TextOf(o: Option<string>): string {
    if o.Some? then o.value else ""
  }

  function ScalarValue(o: Option<string>): Value {
    if o.Some? then Text(o.value) else Null
  }

  /** Flattening typed metadata stores its fields. */
  lemma FlattenedHolds(m: DocMeta)
    requires AllPipeFree(m.allowedTeams) && AllPipeFree(m.allowedUsers)
    ensures Holds(Flattened(map[
      "owner_id" := ScalarValue(m.ownerId), "visibility" := Text(m.visibility),
      "company_id" := ScalarValue(m.companyId),
      "allowed_teams" := List(m.allowedTeams), "allowed_users" := List(m.allowedUsers)]), m)
  {
  }

  predicate CleanId(id: string) {
    id != "" && PipeFree(id)
  }

  predicate CleanUser(u: User) {
    CleanId(u.userId) && forall t :: t in u.teamIds ==> CleanId(t)
  }

  const SCALAR_KEYS := {"owner_id", "visibility", "company_id"}
  const LIST_KEYS := {"allowed_teams", "allowed_users"}

  /** Filter values that both forms of metadata read alike. */
  predicate CleanValue(key: string, v: FilterValue) {
    match v
    case Scalar(text) => key in SCALAR_KEYS && text != ""
    case AnyOf(ids) => key in LIST_KEYS && forall id :: id in ids ==> CleanId(id)
  }

  lemma FieldReadingAgrees(reading: Reading, flat: Flat, m: DocMeta, key: string, v: FilterValue)
    requires Holds(flat, m) && CleanValue(key, v)
    ensures StoredFieldMatches(reading, flat, key, v) <==> FieldMatches(m, key, v)
  {
    if v.AnyOf? {
      var ids := if key == "allowed_teams" then m.allowedTeams else m.allowedUsers;
      assert ListField(m, key) == ids && Stored(flat, key) == Encode(ids);
      forall id | id in v.ids
        ensures Contains(ReadAs(reading, Encode(ids)), Needle(id)) <==> id in ids
      {
        assert CleanId(id);
        EncodeExact(ids, id);
        WrappedExact(ids, id);
      }
    }
  }

  predicate CleanClause(c: Clause) {
    forall key :: key in c ==> CleanValue(key, c[key])
  }

  lemma ClauseReadingAgrees(reading: Reading, flat: Flat, m: DocMeta, c: Clause)
    requires Holds(flat, m) && CleanClause(c)
    ensures StoredClauseMatches(reading, flat, c) <==> ClauseMatches(m, c)
  {
    forall key | key in c
      ensures StoredFieldMatches(reading, flat, key, c[key]) <==> FieldMatches(m, key, c[key])
    {
      FieldReadingAgrees(reading, flat, m, key, c[key]);
    }
  }

  lemma BuiltinClausesClean(u: User, level: string)
    requires CleanUser(u) && level in BUILTIN.rules
    ensures CleanClause(BUILTIN.rules[level].clause(u))
  {
  }

  predicate CleanFilter(f: Filter) {
    match f
    case MatchAll => true
    case Just(c) => CleanClause(c)
    case Either(cs) => forall i :: 0 <= i < |cs| ==> CleanClause(cs[i])
  }

  lemma FilterReadingAgrees(reading: Reading, flat: Flat, m: DocMeta, f: Filter)
    requires Holds(flat, m) && CleanFilter(f)
    ensures StoredFilterMatches(reading, flat, f) <==> FilterMatches(m, f)
  {
    match f
    case MatchAll =>
    case Just(c) => ClauseReadingAgrees(reading, flat, m, c);
    case Either(cs) =>
      forall i | 0 <= i < |cs|
        ensures StoredClauseMatches(reading, flat, cs[i]) <==> ClauseMatches(m, cs[i])
      {
        ClauseReadingAgrees(reading, flat, m, cs[i]);
      }
  }

  lemma BuiltinFilterClean(u: User)
    requires CleanUser(u)
    ensures BUILTIN.Valid() && CleanFilter(VisibilityFilter(BUILTIN, u))
  {
    if !IsAdmin(u) {
      var rest := RuleClauses(BUILTIN, u, BUILTIN.names);
      var cs := [OwnerClause(u)] + rest;
      forall i | 0 <= i < |cs|
        ensures CleanClause(cs[i])
      {
        if i > 0 {
          var level := BUILTIN.names[i - 1];
          assert cs[i] == rest[i - 1] == BUILTIN.rules[level].clause(u);
          BuiltinClausesClean(u, level);
        }
      }
    }
  }

  /** On the built-in levels, either string reading of the stored metadata selects what the typed filter selects. */
  lemma BuiltinReadingAgrees(reading: Reading, flat: Flat, m: DocMeta, u: User)
    requires Holds(flat, m) && CleanUser(u)
    ensures BUILTIN.Valid()
    ensures StoredFilterMatches(reading, flat, VisibilityFilter(BUILTIN, u))
      <==> FilterMatches(m, VisibilityFilter(BUILTIN, u))
  {
    BuiltinFilterClean(u);
    FilterReadingAgrees(reading, flat, m, VisibilityFilter(BUILTIN, u));
  }

  // ---------------------------------------------------------------- filters combined with a collection

  /** A filter as it reaches the stores: clauses under nested "$or" and "$and". */
  datatype Nested = Plain(clause: Clause) | AnyPart(parts: seq<Nested>) | AllParts(parts: seq<Nested>)

  function PlainParts(cs: seq<Clause>): seq<Nested> {
    seq(|cs|, i requires 0 <= i < |cs| => Plain(cs[i]))
  }

  function Nest(f: Filter): Nested {
    match f
    case MatchAll => Plain(map[])
    case Just(c) => Plain(c)
    case Either(cs) => AnyPart(PlainParts(cs))
  }

  predicate HasCollection(collection: Option<string>) {
    collection.Some? && collection.value != ""
  }

  /** Narrows a filter to a collection, if there is one to narrow it to. */
  function InCollection(filter: Nested, collection: Option<string>): Nested {
    if !HasCollection(collection) then filter
    else
      var col := Plain(map["collection_id" := Scalar(collection.value)]);
      if filter == Plain(map[]) then col else AllParts([filter, col])
  }

  /** The keyword search evaluates one part of a filter by its plain keys; "$or" and "$and" inside it are skipped. */
  predicate KeywordPart(flat: Flat, part: Nested) {
    part.Plain? ==> StoredClauseMatches(Raw, flat, part.clause)
  }

  predicate KeywordPasses(flat: Flat, filter: Nested) {
    match filter
    case Plain(c) => StoredClauseMatches(Raw, flat, c)
    case AnyPart(parts) => parts == [] || exists i :: 0 <= i < |parts| && KeywordPart(flat, parts[i])
    case AllParts(parts) => forall i :: 0 <= i < |parts| ==> KeywordPart(flat, parts[i])
  }

  /** The ChromaDB post-filter descends into nested parts. */
  predicate PostFilterPasses(flat: Flat, filter: Nested) {
    match filter
    case Plain(c) => StoredClauseMatches(Wrapped, flat, c)
    case AnyPart(parts) => parts == [] || exists i :: 0 <= i < |parts| && PostFilterPasses(flat, parts[i])
    case AllParts(parts) => forall i :: 0 <= i < |parts| ==> PostFilterPasses(flat, parts[i])
  }

  predicate OfCollection(flat: Flat, collection: Option<string>) {
    HasCollection(collection) ==> Stored(flat, "collection_id") == collection.value
  }

  /** The builders of access filters never return an empty disjunction. */
  predicate Proper(f: Filter) {
    f.Either? ==> f.clauses != []
  }

  lemma CollectionClause(reading: Reading, flat: Flat, id: string)
    ensures StoredClauseMatches(reading, flat, map["collection_id" := Scalar(id)])
      <==> Stored(flat, "collection_id") == id
  {
    var c: Clause := map["collection_id" := Scalar(id)];
    assert "collection_id" in c && forall key :: key in c ==> key == "collection_id";
  }

  lemma TwoParts(a: Nested, b: Nested, flat: Flat)
    ensures KeywordPasses(flat, AllParts([a, b])) <==> KeywordPart(flat, a) && KeywordPart(flat, b)
    ensures PostFilterPasses(flat, AllParts([a, b])) <==> PostFilterPasses(flat, a) && PostFilterPasses(flat, b)
  {
    var parts := [a, b];
    assert parts[0] == a && parts[1] == b;
  }

  lemma NestReads(flat: Flat, f: Filter)
    requires Proper(f)
    ensures KeywordPasses(flat, Nest(f)) <==> StoredFilterMatches(Raw, flat, f)
    ensures PostFilterPasses(flat, Nest(f)) <==> StoredFilterMatches(Wrapped, flat, f)
  {
    if f.Either? {
      var parts := PlainParts(f.clauses);
      assert forall i :: 0 <= i < |parts| ==> parts[i] == Plain(f.clauses[i]);
    }
  }

  /** The post-filter applies the access filter and the collection, whatever the two are. */
  lemma PostFilterCombines(flat: Flat, f: Filter, collection: Option<string>)
    requires Proper(f)
    ensures PostFilterPasses(flat, InCollection(Nest(f), collection))
      <==> StoredFilterMatches(Wrapped, flat, f) && OfCollection(flat, collection)
  {
    NestReads(flat, f);
    if HasCollection(collection) {
      var col := Plain(map["collection_id" := Scalar(collection.value)]);
      CollectionClause(Wrapped, flat, collection.value);
      TwoParts(Nest(f), col, flat);
    }
  }

  /** The keyword search applies them both only if there is no collection or the access filter is no disjunction. */
  lemma KeywordCombines(flat: Flat, f: Filter, collection: Option<string>)
    requires Proper(f)
    ensures KeywordPasses(flat, InCollection(Nest(f), collection))
      <==> ((f.Either? && HasCollection(collection)) || StoredFilterMatches(Raw, flat, f))
           && OfCollection(flat, collection)
  {
    NestReads(flat, f);
    if HasCollection(collection) {
      var col := Plain(map["collection_id" := Scalar(collection.value)]);
      CollectionClause(Raw, flat, collection.value);
      TwoParts(Nest(f), col, flat);
    }
  }

  predicate CleanScope(scope: string) {
    |scope| >= 5 && scope[..5] == "team:" ==> CleanId(scope[5..])
  }

  lemma ScopedFilterClean(u: User, scope: string)
    requires CleanUser(u) && CleanScope(scope)
    ensures BUILTIN.Valid()
    ensures CleanFilter(ScopedFilter(BUILTIN, u, scope)) && Proper(ScopedFilter(BUILTIN, u, scope))
  {
    BuiltinFilterClean(u);
  }

  /** The post-filter agrees with the typed filter and the collection, for every scope. */
  lemma PostFilterAgrees(flat: Flat, m: DocMeta, u: User, scope: string, collection: Option<string>)
    requires Holds(flat, m) && CleanUser(u) && CleanScope(scope)
    ensures BUILTIN.Valid()
    ensures PostFilterPasses(flat, InCollection(Nest(ScopedFilter(BUILTIN, u, scope)), collection))
      <==> FilterMatches(m, ScopedFilter(BUILTIN, u, scope))
           && (collection == None || collection == Some("") || Stored(flat, "collection_id") == collection.value)
  {
    var f := ScopedFilter(BUILTIN, u, scope);
    ScopedFilterClean(u, scope);
    PostFilterCombines(flat, f, collection);
    FilterReadingAgrees(Wrapped, flat, m, f);
  }

  /** The keyword search decides like the typed filter and the collection. */
  ghost predicate KeywordAgrees(flat: Flat, m: DocMeta, u: User, scope: string, collection: Option<string>) {
    assert BUILTIN.Valid() by { BuiltinFilterAgreesWithCheck(u, m); }
    KeywordPasses(flat, InCollection(Nest(ScopedFilter(BUILTIN, u, scope)), collection))
    <==> FilterMatches(m, ScopedFilter(BUILTIN, u, scope))
         && (collection == None || collection == Some("") || Stored(flat, "collection_id") == collection.value)
  }

  /** Somebody else's confidential document that lists nobody is in no narrowing scope, and the rules deny it. */
  lemma UnlistedIsDenied(u: User, scope: string, m: DocMeta)
    requires m.visibility == "confidential" && m.allowedUsers == [] && m.ownerId != Some(u.userId)
    requires scope == "personal" || TeamScope(u, scope) || !IsAdmin(u)
    ensures BUILTIN.Valid() && !FilterMatches(m, ScopedFilter(BUILTIN, u, scope))
  {
    BuiltinFilterAgreesWithCheck(u, m);
    hide FilterMatches, VisibilityFilter, ScopedFilter;
    ScopedMeaning(BUILTIN, u, scope, m);
  }

  lemma StoredUnlisted(owner: string, collection: string) returns (flat: Flat, m: DocMeta)
    ensures m == DocMeta(Some(owner), "confidential", [], [], None)
    ensures Holds(flat, m) && Stored(flat, "collection_id") == collection
  {
    m := DocMeta(Some(owner), "confidential", [], [], None);
    flat := map["owner_id" := owner, "visibility" := "confidential", "collection_id" := collection];
  }

  lemma KeywordMissesAccess(u: User, scope: string, collection: Option<string>)
    requires CleanUser(u) && CleanScope(scope) && HasCollection(collection)
    requires scope != "personal" && (TeamScope(u, scope) || !IsAdmin(u))
    ensures exists flat, m :: Holds(flat, m) && !KeywordAgrees(flat, m, u, scope, collection)
  {
    assert (u.userId + "x")[..|u.userId|] == u.userId;
    var flat, m := StoredUnlisted(u.userId + "x", collection.value);
    UnlistedIsDenied(u, scope, m);
    ScopedFilterClean(u, scope);
    assert ScopedFilter(BUILTIN, u, scope).Either?;
    hide FilterMatches, StoredFilterMatches, KeywordPasses, InCollection, Holds, ScopedFilter, Nest;
    KeywordCombines(flat, ScopedFilter(BUILTIN, u, scope), collection);
    assert !KeywordAgrees(flat, m, u, scope, collection);
  }

  /**
   The keyword search decides like the access filter and the collection, on every stored document, exactly when no
   collection is asked for or the access filter is no disjunction: one's own documents, or all for an administrator.
   */
  lemma KeywordAgreesExactly(u: User, scope: string, collection: Option<string>)
    requires CleanUser(u) && CleanScope(scope)
    ensures (forall flat, m :: Holds(flat, m) ==> KeywordAgrees(flat, m, u, scope, collection))
      <==> collection in {None, Some("")} || scope == "personal" || (IsAdmin(u) && !TeamScope(u, scope))
  {
    if !HasCollection(collection) || scope == "personal" || (IsAdmin(u) && !TeamScope(u, scope)) {
      forall flat, m | Holds(flat, m)
        ensures KeywordAgrees(flat, m, u, scope, collection)
      {
        ScopedFilterClean(u, scope);
        KeywordCombines(flat, ScopedFilter(BUILTIN, u, scope), collection);
        FilterReadingAgrees(Raw, flat, m, ScopedFilter(BUILTIN, u, scope));
      }
    } else {
      KeywordMissesAccess(u, scope, collection);
    }
  }
}
