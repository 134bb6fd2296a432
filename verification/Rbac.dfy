/**
 Access rules in two forms: the per-document check, and the metadata filter handed to
 the vector store, both driven by a registry of visibility rules.
 */
module Rbac {
  import opened Wrappers

  datatype User = User(
    userId: string, roles: seq<string>, teamIds: seq<string>, companyId: Option<string>, isSuperAdmin: bool)

  /** The metadata a check reads; `None` is a missing key. */
  datatype DocMeta = DocMeta(
    ownerId: Option<string>, visibility: string, allowedTeams: seq<string>, allowedUsers: seq<string>,
    companyId: Option<string>)

  // ---------------------------------------------------------------- filters

  datatype FilterValue = Scalar(text: string) | AnyOf(ids: seq<string>)

  type Clause = map<string, FilterValue>

  datatype Filter = MatchAll | Just(clause: Clause) | Either(clauses: seq<Clause>)

  function Field(m: DocMeta, key: string): Option<string> {
    match key
    case "owner_id" => m.ownerId
    case "visibility" => Some(m.visibility)
    case "company_id" => m.companyId
    case _ => None
  }

  function ListField(m: DocMeta, key: string): seq<string> {
    match key
    case "allowed_teams" => m.allowedTeams
    case "allowed_users" => m.allowedUsers
    case _ => []
  }

  /** Scalars match by equality, lists by a shared element. */
  predicate FieldMatches(m: DocMeta, key: string, v: FilterValue) {
    match v
    case Scalar(text) => Field(m, key) == Some(text)
    case AnyOf(ids) => exists id :: id in ids && id in ListField(m, key)
  }

  predicate ClauseMatches(m: DocMeta, c: Clause) {
    forall key :: key in c ==> FieldMatches(m, key, c[key])
  }

  predicate FilterMatches(m: DocMeta, f: Filter) {
    match f
    case MatchAll => true
    case Just(c) => ClauseMatches(m, c)
    case Either(cs) => exists i :: 0 <= i < |cs| && ClauseMatches(m, cs[i])
  }

  // ---------------------------------------------------------------- rules

  datatype Rule = Rule(canAccess: (User, DocMeta) -> bool, clause: User -> Clause)

  const NO_MATCH := "_no_match_"

  predicate HasCompany(u: User) {
    u.companyId.Some? && u.companyId.value != ""
  }

  const PUBLIC := Rule((u: User, m: DocMeta) => true, (u: User) => map["visibility" := Scalar("public")])

  const TEAM := Rule(
    (u: User, m: DocMeta) => exists t :: t in u.teamIds && t in m.allowedTeams,
    (u: User) => map["visibility" := Scalar("team"), "allowed_teams" := AnyOf(u.teamIds)])

  const CONFIDENTIAL := Rule(
    (u: User, m: DocMeta) => u.userId in m.allowedUsers,
    (u: User) => map["visibility" := Scalar("confidential"), "allowed_users" := AnyOf([u.userId])])

  const CHANNEL := Rule(
    (u: User, m: DocMeta) => u.userId in m.allowedUsers,
    (u: User) => map["visibility" := Scalar("channel"), "allowed_users" := AnyOf([u.userId])])

  const INTERNAL := Rule(
    (u: User, m: DocMeta) => HasCompany(u) && u.companyId == m.companyId,
    (u: User) => map["visibility" := Scalar("internal"),
                     "company_id" := Scalar(if HasCompany(u) then u.companyId.value else NO_MATCH)])

  // ---------------------------------------------------------------- registry

  /** A Python dict of rules: the keys in insertion order beside the values. */
  datatype Registry = Registry(names: seq<string>, rules: map<string, Rule>) {
    ghost predicate Valid() {
      && (forall n :: n in names <==> n in rules)
      && (forall i, j :: 0 <= i < j < |names| ==> names[i] != names[j])
    }
  }

  const BUILTIN := Registry(
    ["public", "internal", "team", "channel", "confidential"],
    map["public" := PUBLIC, "internal" := INTERNAL, "team" := TEAM, "channel" := CHANNEL,
        "confidential" := CONFIDENTIAL])

  function Registered(reg: Registry, name: string, rule: Rule): Registry {
    Registry(if name in reg.rules then reg.names else reg.names + [name], reg.rules[name := rule])
  }

  predicate IsAdmin(u: User) {
    u.isSuperAdmin || "admin" in u.roles
  }

  function OwnerClause(u: User): Clause {
    map["owner_id" := Scalar(u.userId)]
  }

  function RuleClauses(reg: Registry, u: User, names: seq<string>): seq<Clause>
    requires forall n :: n in names ==> n in reg.rules
  {
    seq(|names|, i requires 0 <= i < |names| => reg.rules[names[i]].clause(u))
  }

  function VisibilityFilter(reg: Registry, u: User): Filter
    requires reg.Valid()
  {
    if IsAdmin(u) then MatchAll else Either([OwnerClause(u)] + RuleClauses(reg, u, reg.names))
  }

  /** The module-level registry and the functions that use it. */
  class VisibilityRules {
    var reg: Registry

    constructor ()
      ensures reg == BUILTIN
    {
      reg := BUILTIN;
    }

    method Register(name: string, rule: Rule)
      requires reg.Valid()
      modifies this
      ensures reg.Valid() && reg == Registered(old(reg), name, rule)
    {
      if name !in reg.rules {
        reg := reg.(names := reg.names + [name]);
      }
      reg := reg.(rules := reg.rules[name := rule]);
    }

    method BuildVisibilityFilter(u: User) returns (f: Filter)
      requires reg.Valid()
      ensures f == VisibilityFilter(reg, u)
    {
      if u.isSuperAdmin || "admin" in u.roles {
        return MatchAll;
      }
      var clauses := [OwnerClause(u)];
      for i := 0 to |reg.names|
        invariant clauses == [OwnerClause(u)] + RuleClauses(reg, u, reg.names[..i])
      {
        assert reg.names[i] in reg.names;
        clauses := clauses + [reg.rules[reg.names[i]].clause(u)];
      }
      assert reg.names[..|reg.names|] == reg.names;
      return Either(clauses);
    }
  }

  datatype AccessError = UnknownVisibility(visibility: string)

  function CheckDocumentAccess(reg: Registry, user: Option<User>, m: DocMeta): Result<bool, AccessError> {
    if user.None? then Ok(false)
    else if user.value.isSuperAdmin || "admin" in user.value.roles then Ok(true)
    else if m.ownerId == Some(user.value.userId) then Ok(true)
    else if m.visibility !in reg.rules then Err(UnknownVisibility(m.visibility))
    else Ok(reg.rules[m.visibility].canAccess(user.value, m))
  }

  function ScopedFilter(reg: Registry, u: User, scope: string): Filter
    requires reg.Valid()
  {
    if scope == "personal" then Just(OwnerClause(u))
    else if |scope| >= 5 && scope[..5] == "team:" then
      var team := scope[5..];
      if team !in u.teamIds && "admin" !in u.roles then VisibilityFilter(reg, u)
      else Either([OwnerClause(u),
                   map["visibility" := Scalar("public")],
                   map["visibility" := Scalar("team"), "allowed_teams" := AnyOf([team])]])
    else VisibilityFilter(reg, u)
  }

  // ---------------------------------------------------------------- the two forms agree

  /** The rule's clause selects exactly the documents of its level that its check lets through. */
  predicate RuleExactAt(name: string, rule: Rule, u: User, m: DocMeta) {
    ClauseMatches(m, rule.clause(u)) <==> m.visibility == name && rule.canAccess(u, m)
  }

  predicate ExactAt(reg: Registry, u: User, m: DocMeta) {
    forall n :: n in reg.rules ==> RuleExactAt(n, reg.rules[n], u, m)
  }

  lemma FilterAgreesWithCheck(reg: Registry, u: User, m: DocMeta)
    requires reg.Valid() && ExactAt(reg, u, m)
    ensures FilterMatches(m, VisibilityFilter(reg, u)) <==> CheckDocumentAccess(reg, Some(u), m) == Ok(true)
  {
    if !IsAdmin(u) {
      var rest := RuleClauses(reg, u, reg.names);
      var cs := [OwnerClause(u)] + rest;
      assert cs[0] == OwnerClause(u);
      assert ClauseMatches(m, cs[0]) <==> m.ownerId == Some(u.userId) by {
        assert "owner_id" in OwnerClause(u);
      }
      if i :| 0 <= i < |cs| && ClauseMatches(m, cs[i]) {
        if i > 0 {
          assert cs[i] == rest[i - 1] == reg.rules[reg.names[i - 1]].clause(u);
          assert RuleExactAt(reg.names[i - 1], reg.rules[reg.names[i - 1]], u, m);
        }
      }
      if m.visibility in reg.rules && reg.rules[m.visibility].canAccess(u, m) {
        assert RuleExactAt(m.visibility, reg.rules[m.visibility], u, m);
        assert m.visibility in reg.names;
        var i :| 0 <= i < |reg.names| && reg.names[i] == m.visibility;
        assert cs[i + 1] == rest[i] == reg.rules[m.visibility].clause(u);
      }
    }
  }

  /** A clause with two keys matches when both of its conditions do. */
  lemma TwoKeyClause(m: DocMeta, k1: string, v1: FilterValue, k2: string, v2: FilterValue)
    requires k1 != k2
    ensures ClauseMatches(m, map[k1 := v1, k2 := v2]) <==> FieldMatches(m, k1, v1) && FieldMatches(m, k2, v2)
  {
    var c := map[k1 := v1, k2 := v2];
    assert k1 in c && k2 in c && forall k :: k in c ==> k == k1 || k == k2;
  }

  lemma OneKeyClause(m: DocMeta, k: string, v: FilterValue)
    ensures ClauseMatches(m, map[k := v]) <==> FieldMatches(m, k, v)
  {
    var c := map[k := v];
    assert k in c && forall k' :: k' in c ==> k' == k;
  }

  /** A user without a company is filtered by a marker, and the document's company id is that marker. */
  predicate MarkerClash(u: User, m: DocMeta) {
    !HasCompany(u) && m.visibility == "internal" && m.companyId == Some(NO_MATCH)
  }

  lemma MemberClause(u: User, m: DocMeta, level: string)
    ensures ClauseMatches(m, map["visibility" := Scalar(level), "allowed_users" := AnyOf([u.userId])]) <==>
      m.visibility == level && u.userId in m.allowedUsers
  {
    TwoKeyClause(m, "visibility", Scalar(level), "allowed_users", AnyOf([u.userId]));
    assert u.userId in [u.userId];
  }

  lemma InternalExact(u: User, m: DocMeta)
    ensures RuleExactAt("internal", INTERNAL, u, m) <==> !MarkerClash(u, m)
  {
    var company := if HasCompany(u) then u.companyId.value else NO_MATCH;
    TwoKeyClause(m, "visibility", Scalar("internal"), "company_id", Scalar(company));
  }

  lemma OtherLevelsExact(u: User, m: DocMeta)
    ensures RuleExactAt("public", PUBLIC, u, m) && RuleExactAt("team", TEAM, u, m)
    ensures RuleExactAt("channel", CHANNEL, u, m) && RuleExactAt("confidential", CONFIDENTIAL, u, m)
  {
    OneKeyClause(m, "visibility", Scalar("public"));
    TwoKeyClause(m, "visibility", Scalar("team"), "allowed_teams", AnyOf(u.teamIds));
    MemberClause(u, m, "channel");
    MemberClause(u, m, "confidential");
  }

  /** Each level's clause and check agree, but for the marker of the internal level. */
  lemma BuiltinExact(u: User, m: DocMeta)
    ensures ExactAt(BUILTIN, u, m) <==> !MarkerClash(u, m)
  {
    OtherLevelsExact(u, m);
    InternalExact(u, m);
    assert BUILTIN.rules["internal"] == INTERNAL;
    hide RuleExactAt, MarkerClash, PUBLIC, TEAM, CHANNEL, CONFIDENTIAL, INTERNAL;
  }

  lemma BuiltinValid()
    ensures BUILTIN.Valid()
  {
  }

  lemma ClashPassesFilter(u: User, m: DocMeta)
    requires MarkerClash(u, m)
    ensures BUILTIN.Valid() && FilterMatches(m, VisibilityFilter(BUILTIN, u))
  {
    BuiltinValid();
    hide Registry.Valid;
    if !IsAdmin(u) {
      var cs := VisibilityFilter(BUILTIN, u).clauses;
      assert cs[2] == INTERNAL.clause(u);
      TwoKeyClause(m, "visibility", Scalar("internal"), "company_id", Scalar(NO_MATCH));
      assert ClauseMatches(m, cs[2]);
    }
  }

  lemma ClashFailsCheck(u: User, m: DocMeta)
    requires MarkerClash(u, m) && !IsAdmin(u) && m.ownerId != Some(u.userId)
    ensures CheckDocumentAccess(BUILTIN, Some(u), m) == Ok(false)
  {
  }

  /**
   With the built-in levels, filter and check differ exactly for a user without a company on a document of the
   marker's company.
   */
  lemma BuiltinFilterAgreesWithCheck(u: User, m: DocMeta)
    ensures BUILTIN.Valid()
    ensures (FilterMatches(m, VisibilityFilter(BUILTIN, u)) <==> CheckDocumentAccess(BUILTIN, Some(u), m) == Ok(true))
       <==> (IsAdmin(u) || m.ownerId == Some(u.userId) || !MarkerClash(u, m))
  {
    BuiltinValid();
    BuiltinExact(u, m);
    hide Registry.Valid, ExactAt, FilterMatches, VisibilityFilter, MarkerClash;
    if !MarkerClash(u, m) {
      FilterAgreesWithCheck(BUILTIN, u, m);
    } else {
      ClashPassesFilter(u, m);
      if !IsAdmin(u) && m.ownerId != Some(u.userId) {
        ClashFailsCheck(u, m);
      }
    }
  }

  /** Registering an exact rule keeps the registry exact, whatever level it adds or replaces. */
  lemma RegisterKeepsExact(reg: Registry, name: string, rule: Rule, u: User, m: DocMeta)
    requires reg.Valid() && ExactAt(reg, u, m) && RuleExactAt(name, rule, u, m)
    ensures Registered(reg, name, rule).Valid()
    ensures ExactAt(Registered(reg, name, rule), u, m)
    ensures CheckDocumentAccess(Registered(reg, name, rule), Some(u), m).Err? <==>
      !IsAdmin(u) && m.ownerId != Some(u.userId) && m.visibility != name && m.visibility !in reg.rules
  {
    var reg' := Registered(reg, name, rule);
    assert reg'.Valid() by {
      assert name in reg.names <==> name in reg.rules;
      assert forall n :: n in reg.names + [name] <==> n in reg.names || n == name;
    }
    forall n | n in reg'.rules
      ensures RuleExactAt(n, reg'.rules[n], u, m)
    {
      if n != name {
        assert RuleExactAt(n, reg.rules[n], u, m);
      }
    }
  }

  /** What the built-in level of a document asks of a user who is neither its owner nor an administrator. */
  predicate LevelAdmits(u: User, m: DocMeta) {
    if m.visibility == "public" then true
    else if m.visibility == "internal" then u.companyId.Some? && u.companyId.value != "" && u.companyId == m.companyId
    else if m.visibility == "team" then exists t :: t in u.teamIds && t in m.allowedTeams
    else m.visibility in {"channel", "confidential"} && u.userId in m.allowedUsers
  }

  /**
   Who passes the check: nobody without a user, every administrator and owner, and whom the level of the
   document admits.
   */
  lemma CheckMeaning(u: User, m: DocMeta)
    ensures CheckDocumentAccess(BUILTIN, None, m) == Ok(false)
    ensures CheckDocumentAccess(BUILTIN, Some(u), m) == Ok(true)
      <==> u.isSuperAdmin || "admin" in u.roles || m.ownerId == Some(u.userId) || LevelAdmits(u, m)
    ensures CheckDocumentAccess(BUILTIN, Some(u), m).Err? <==>
      && !u.isSuperAdmin && "admin" !in u.roles && m.ownerId != Some(u.userId)
      && m.visibility !in {"public", "internal", "team", "channel", "confidential"}
  {
  }

  // ---------------------------------------------------------------- the narrowed filter only narrows

  predicate KeepsPublicAndTeam(reg: Registry, u: User) {
    && "public" in reg.rules && reg.rules["public"].clause(u) == PUBLIC.clause(u)
    && "team" in reg.rules && reg.rules["team"].clause(u) == TEAM.clause(u)
  }

  /** The scope names a team, and one that the user may narrow to. */
  predicate TeamScope(u: User, scope: string) {
    |scope| >= 5 && scope[..5] == "team:" && (scope[5..] in u.teamIds || "admin" in u.roles)
  }

  /** What a scope promises, in terms of the document. */
  predicate InScope(u: User, scope: string, m: DocMeta) {
    if scope == "personal" then m.ownerId == Some(u.userId)
    else if TeamScope(u, scope) then
      || m.ownerId == Some(u.userId)
      || m.visibility == "public"
      || (m.visibility == "team" && scope[5..] in m.allowedTeams)
    else true
  }

  /**
   A narrowing scope selects the documents in it and nothing else, any other scope what the full filter selects.
   As long as the rules for public and team documents are the built-in ones, the full filter selects them too.
   */
  lemma ScopedMeaning(reg: Registry, u: User, scope: string, m: DocMeta)
    requires reg.Valid()
    ensures FilterMatches(m, ScopedFilter(reg, u, scope)) <==>
      InScope(u, scope, m) && (scope == "personal" || TeamScope(u, scope) || FilterMatches(m, VisibilityFilter(reg, u)))
    ensures KeepsPublicAndTeam(reg, u) ==>
      (FilterMatches(m, ScopedFilter(reg, u, scope)) <==>
         InScope(u, scope, m) && FilterMatches(m, VisibilityFilter(reg, u)))
  {
    ScopeClauses(reg, u, scope, m);
    if KeepsPublicAndTeam(reg, u) && (scope == "personal" || TeamScope(u, scope)) && InScope(u, scope, m) {
      ScopeInFullFilter(reg, u, scope, m);
    }
  }

  lemma ScopeClauses(reg: Registry, u: User, scope: string, m: DocMeta)
    requires reg.Valid()
    ensures scope == "personal" || TeamScope(u, scope) ==>
      (FilterMatches(m, ScopedFilter(reg, u, scope)) <==> InScope(u, scope, m))
  {
    OneKeyClause(m, "owner_id", Scalar(u.userId));
    OneKeyClause(m, "visibility", Scalar("public"));
    if scope != "personal" && TeamScope(u, scope) {
      var team, cs := scope[5..], ScopedFilter(reg, u, scope).clauses;
      TwoKeyClause(m, "visibility", Scalar("team"), "allowed_teams", AnyOf([team]));
      assert FieldMatches(m, "allowed_teams", AnyOf([team])) <==> team in m.allowedTeams by {
        assert team in [team];
      }
      assert cs[0] == OwnerClause(u) && cs[1] == map["visibility" := Scalar("public")];
      assert |cs| == 3 && cs[2] == map["visibility" := Scalar("team"), "allowed_teams" := AnyOf([team])];
    }
  }

  lemma ScopeInFullFilter(reg: Registry, u: User, scope: string, m: DocMeta)
    requires reg.Valid() && KeepsPublicAndTeam(reg, u) && InScope(u, scope, m)
    requires scope == "personal" || TeamScope(u, scope)
    ensures FilterMatches(m, VisibilityFilter(reg, u))
  {
    if !IsAdmin(u) {
      OneKeyClause(m, "owner_id", Scalar(u.userId));
      OneKeyClause(m, "visibility", Scalar("public"));
      TwoKeyClause(m, "visibility", Scalar("team"), "allowed_teams", AnyOf(u.teamIds));
      RuleClauseInFilter(reg, u, "public");
      RuleClauseInFilter(reg, u, "team");
      assert VisibilityFilter(reg, u).clauses[0] == OwnerClause(u);
    }
  }

  /** The registered rule of the document's level lets the user in. */
  predicate LetInByRule(reg: Registry, u: User, m: DocMeta) {
    m.visibility in reg.rules && reg.rules[m.visibility].canAccess(u, m)
  }

  /**
   Whatever rules are registered, as long as their two forms agree: a scope admits a document only if the full
   filter does, exactly unless the document is in the team scope and the rule of its level keeps the user out.
   */
  lemma ScopeNarrows(reg: Registry, u: User, scope: string, m: DocMeta)
    requires reg.Valid() && ExactAt(reg, u, m)
    ensures (FilterMatches(m, ScopedFilter(reg, u, scope)) ==> FilterMatches(m, VisibilityFilter(reg, u)))
      <==> (IsAdmin(u) || m.ownerId == Some(u.userId) || scope == "personal" || !TeamScope(u, scope)
            || !InScope(u, scope, m) || LetInByRule(reg, u, m))
  {
    ScopedMeaning(reg, u, scope, m);
    FilterAgreesWithCheck(reg, u, m);
    hide VisibilityFilter, ScopedFilter, FilterMatches, ExactAt;
  }

  /** A rule that keeps public documents to the users they list. */
  const LISTED_ONLY := Rule(
    (u: User, m: DocMeta) => u.userId in m.allowedUsers,
    (u: User) => map["visibility" := Scalar("public"), "allowed_users" := AnyOf([u.userId])])

  lemma ListedOnlyExact(u: User, m: DocMeta)
    requires m.visibility == "public" && u.userId !in m.allowedUsers
    ensures var reg := Registered(BUILTIN, "public", LISTED_ONLY);
      reg.Valid() && ExactAt(reg, u, m) && !LetInByRule(reg, u, m)
  {
    BuiltinExact(u, m);
    assert BUILTIN.Valid() by { BuiltinFilterAgreesWithCheck(u, m); }
    MemberClause(u, m, "public");
    assert RuleExactAt("public", LISTED_ONLY, u, m);
    hide RuleExactAt, ExactAt;
    RegisterKeepsExact(BUILTIN, "public", LISTED_ONLY, u, m);
  }

  /** With such a rule in the place of the built-in one, the scope of any team widens what its members see. */
  lemma NarrowerRuleWidensScope(u: User, team: string, m: DocMeta)
    requires !IsAdmin(u) && team in u.teamIds
    requires m.visibility == "public" && m.ownerId != Some(u.userId) && u.userId !in m.allowedUsers
    ensures var reg := Registered(BUILTIN, "public", LISTED_ONLY);
      && reg.Valid() && ExactAt(reg, u, m)
      && FilterMatches(m, ScopedFilter(reg, u, "team:" + team)) && !FilterMatches(m, VisibilityFilter(reg, u))
  {
    var scope := "team:" + team;
    assert scope[..5] == "team:" && scope[5..] == team;
    assert scope != "personal" by { assert scope[0] == 't'; }
    ListedOnlyExact(u, m);
    assert TeamScope(u, scope) && InScope(u, scope, m);
    hide *;
    ScopeNarrows(Registered(BUILTIN, "public", LISTED_ONLY), u, scope, m);
  }

  lemma RuleClauseInFilter(reg: Registry, u: User, name: string)
    requires reg.Valid() && name in reg.rules && !IsAdmin(u)
    ensures var cs := VisibilityFilter(reg, u).clauses;
      exists i :: 0 <= i < |cs| && cs[i] == reg.rules[name].clause(u)
  {
    assert name in reg.names;
    var i :| 0 <= i < |reg.names| && reg.names[i] == name;
    assert VisibilityFilter(reg, u).clauses[i + 1] == reg.rules[name].clause(u);
  }
}
