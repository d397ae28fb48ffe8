/**
 * TenantScopeBehavior: resolves the active account, adds the account filter
 * to primary read queries and fills the account link of saved entities.
 */
module TenantScope {
  import opened Wrappers
  import opened Values
  import opened FieldPath
  import opened Store
  import opened Query

  /** The behaviour's configuration (`_defaultConfig` and the table's overrides). */
  datatype Config = Config(accountField: string, autoLinkDirect: bool)

  /** `_defaultConfig`: the account id is column `account_id` of the table itself; no auto-linking. */
  const DefaultConfig := Config("account_id", false)

  /**
   * With the default configuration the account id is the `account_id`
   * column of the table itself, and saves are not auto-linked.
   */
  lemma DefaultConfigScopesOwnColumn(alias: string, id: AccountId)
    ensures ParseAccountField(DefaultConfig.accountField, alias) == FieldRef("account_id", alias, None)
    ensures ScopeCondition(DefaultConfig.accountField, alias, id) ==
      FieldEquals(alias + ".account_id", Str(id))
    ensures !DefaultConfig.autoLinkDirect
  {
    BareColumnExample(alias);
  }

  /** What detectAccount yields: it throws for a missing user, returns null, or returns an account. */
  datatype Detection = NoIdentity | NoAccount | Detected(account: Account)

  /** The exceptions the behaviour throws. */
  datatype Error =
    | NoUserData        // "No user data is available", from detectAccount
    | AccountRequired   // "Account required but not selected", from beforeFind

  datatype Outcome = Done | Thrown(error: Error)

  /**
   * detectAccount, from the store and session before (`w`) to after (`w2`):
   * a cached account is returned with nothing touched; no `Auth` user
   * throws; a user with no accounts gets null; otherwise one of the user's
   * accounts with the greatest `accessed` is stamped and cached.
   */
  ghost predicate Detects(w: World, w2: World, d: Detection)
  {
    if w.cached.Some? then d == Detected(w.cached.value) && w2 == w
    else if w.auth.None? then d == NoIdentity && w2 == w
    else if FindByIdentity(w.rows, w.members, w.auth) == map[] then d == NoAccount && w2 == w
    else
      && d.Detected?
      && IsLatest(w.rows, w.members, w.auth.value, d.account.id)
      && w2 == Select(w, d.account.id)
      && w2.cached == Some(d.account)
  }

  /**
   * The account lookup at the head of beforeFind and beforeSave: a locally
   * held account is reused; otherwise detectAccount runs and its account
   * (or null) becomes the local one.
   */
  ghost predicate Resolves(local: Option<Account>, w: World, d: Detection, local2: Option<Account>, w2: World)
  {
    if local.Some? then d == Detected(local.value) && local2 == local && w2 == w
    else Detects(w, w2, d) && local2 == (if d.Detected? then Some(d.account) else None)
  }

  /**
   * Detecting twice in one session: the second call returns the account the
   * first one cached and changes nothing (no store access, no new stamp).
   */
  lemma DetectIsStableInSession(w: World, w1: World, d1: Detection, w2: World, d2: Detection)
    requires Detects(w, w1, d1) && d1.Detected?
    requires Detects(w1, w2, d2)
    ensures d2 == d1 && w2 == w1
  {
  }

  /**
   * Detection keeps the store valid, adds and removes no account or
   * membership, and never moves an `accessed` backwards.
   */
  lemma DetectKeepsStoreValid(w: World, w2: World, d: Detection)
    requires WorldValid(w) && Detects(w, w2, d)
    ensures WorldValid(w2)
    ensures w2.members == w.members && w2.rows.Keys == w.rows.Keys && w2.auth == w.auth
    ensures forall id :: id in w.rows ==> Recency(w.rows[id]) <= Recency(w2.rows[id])
  {
  }

  /**
   * In a new session (nothing cached), detection falls back to the account
   * the user's last selection stamped, even if other member accounts exist.
   */
  lemma DetectFindsLastSelected(w: World, id: AccountId, w2: World, d: Detection)
    requires WorldValid(w) && id in w.rows
    requires w.auth.Some? && Membership(id, w.auth.value) in w.members
    requires Detects(Select(w, id).(cached := None), w2, d)
    ensures d.Detected? && d.account.id == id
  {
  }

  /**
   * A user with two accounts, the second accessed later, and nothing
   * cached: detection returns the second and stamps it with the clock.
   */
  lemma LaterAccessedAccountWins(w: World, user: UserId, a1: AccountId, a2: AccountId, w2: World, d: Detection)
    requires w.cached.None? && w.auth == Some(user)
    requires a1 in w.rows && a2 in w.rows
    requires FindByIdentity(w.rows, w.members, Some(user)).Keys == {a1, a2}
    requires Recency(w.rows[a1]) < Recency(w.rows[a2])
    requires Detects(w, w2, d)
    ensures d.Detected? && d.account.id == a2
    ensures w2.rows[a2].accessed == Some(w.clock) && w2.cached == Some(w2.rows[a2])
  {
  }

  /**
   * A row belongs to account `id` under the configured `accountField`. A
   * single segment is a column of the current table. Otherwise the last
   * segment is the column, the one before it is its table, and everything
   * before the last dot is the association path: some row reached through
   * the path holds `id` in that column. A PHP-empty path (`.col`, `0.col`)
   * needs no association, so the row itself must hold it.
   */
  ghost predicate Owned(row: Row, accountField: string, alias: string, id: AccountId, reach: (string, Row) -> set<Row>)
  {
    var parts := Split(accountField);
    var n := |parts|;
    if n == 1 then alias + "." + accountField in row && row[alias + "." + accountField] == Str(id)
    else
      var path := Join(parts[..n - 1]);
      var field := parts[n - 2] + "." + parts[n - 1];
      if EmptyString(path) then field in row && row[field] == Str(id)
      else exists r :: r in reach(path, row) && field in r && r[field] == Str(id)
  }

  /**
   * The condition beforeFind adds for account `id`: `Table.column = id` on
   * the row itself, or inside `matching` on the association path. It holds
   * of a row exactly when the row belongs to the account.
   */
  function ScopeCondition(accountField: string, alias: string, id: AccountId): (c: Condition)
    ensures forall row, reach, given :: Holds(c, row, reach, given) <==> Owned(row, accountField, alias, id, reach)
  {
    var ref := ParseAccountField(accountField, alias);
    var field := ref.table + "." + ref.column;
    if Direct(ref) then FieldEquals(field, Str(id))
    else Matching(ref.associations.value, FieldEquals(field, Str(id)))
  }

  /**
   * A query scoped to account `id` selects exactly the rows the original
   * query selects that belong to `id`.
   */
  lemma ScopedQuerySelectsOwned(conditions: seq<Condition>, accountField: string, alias: string, id: AccountId, row: Row,
                                reach: (string, Row) -> set<Row>, given: (string, Row) -> bool)
    ensures Selects(conditions + [ScopeCondition(accountField, alias, id)], row, reach, given) <==>
      Selects(conditions, row, reach, given) && Owned(row, accountField, alias, id, reach)
  {
    SelectsAppend(conditions, ScopeCondition(accountField, alias, id), row, reach, given);
  }

  /** With the account column on the table itself, a scoped query never returns another account's row. */
  lemma DirectScopeExcludesOthers(conditions: seq<Condition>, accountField: string, alias: string, id: AccountId,
                                  other: AccountId, row: Row, reach: (string, Row) -> set<Row>, given: (string, Row) -> bool)
    requires Direct(ParseAccountField(accountField, alias)) && other != id
    requires Owned(row, accountField, alias, other, reach)
    ensures !Selects(conditions + [ScopeCondition(accountField, alias, id)], row, reach, given)
  {
    ScopedQuerySelectsOwned(conditions, accountField, alias, id, row, reach, given);
    assert Holds(ScopeCondition(accountField, alias, other), row, reach, given);
  }

  /** The associated table reached by a one-level path, as beforeSave sees it. */
  datatype Association = Association(
    foreignKey: string,                   // the saved entity's field linking to the association
    firstOwned: map<AccountId, Value>)    // primary key of the first row the account owns there

  /** The entity field beforeSave fills, if any. */
  function LinkTarget(ref: FieldRef, assocs: map<string, Association>): Option<string>
  {
    if Direct(ref) && !EmptyString(ref.column) then Some(ref.column)
    else if OneLevel(ref) && ref.associations.value in assocs then Some(assocs[ref.associations.value].foreignKey)
    else None
  }

  /** The one-level lookup finds a row for account `id`. */
  predicate Linkable(ref: FieldRef, assocs: map<string, Association>, id: AccountId)
  {
    OneLevel(ref) ==> ref.associations.value in assocs && id in assocs[ref.associations.value].firstOwned
  }

  /**
   * The entity's fields after beforeSave links them to account `id`: the
   * account column is set to `id`, or the association's foreign key to the
   * primary key of the account's first associated row; deeper paths and a
   * PHP-empty column leave the fields alone. Nothing else changes.
   */
  function AutoLinked(fields: map<string, Value>, ref: FieldRef, id: AccountId, assocs: map<string, Association>)
    : (linked: map<string, Value>)
    requires Linkable(ref, assocs, id)
    ensures LinkTarget(ref, assocs).None? ==> linked == fields
    ensures LinkTarget(ref, assocs).Some? ==> linked.Keys == fields.Keys + {LinkTarget(ref, assocs).value}
    ensures forall k :: k in fields && Some(k) != LinkTarget(ref, assocs) ==> linked[k] == fields[k]
    ensures Direct(ref) && !EmptyString(ref.column) ==> linked[ref.column] == Str(id)
    ensures OneLevel(ref) ==>
      linked[assocs[ref.associations.value].foreignKey] == assocs[ref.associations.value].firstOwned[id]
  {
    if Direct(ref) && !EmptyString(ref.column) then fields[ref.column := Str(id)]
    else if OneLevel(ref) then
      var a := assocs[ref.associations.value];
      fields[a.foreignKey := a.firstOwned[id]]
    else fields
  }

  /** Linking twice gives the same fields as linking once. */
  lemma AutoLinkIdempotent(fields: map<string, Value>, ref: FieldRef, id: AccountId, assocs: map<string, Association>)
    requires Linkable(ref, assocs, id)
    ensures AutoLinked(AutoLinked(fields, ref, id, assocs), ref, id, assocs) == AutoLinked(fields, ref, id, assocs)
  {
  }

  /**
   * Every account the lookup can resolve from `local` and `w` has a row in
   * a one-level association: the local copy if there is one, else the
   * session's account, else every member account of the `Auth` user
   * with the greatest `accessed`.
   */
  ghost predicate ResolvesLinkable(ref: FieldRef, assocs: map<string, Association>, local: Option<Account>, w: World)
  {
    if local.Some? then Linkable(ref, assocs, local.value.id)
    else if w.cached.Some? then Linkable(ref, assocs, w.cached.value.id)
    else w.auth.Some? ==> forall id :: IsLatest(w.rows, w.members, w.auth.value, id) ==> Linkable(ref, assocs, id)
  }

  /** The account a lookup resolves is one the association can link to. */
  lemma ResolvedIsLinkable(ref: FieldRef, assocs: map<string, Association>, local: Option<Account>, w: World,
                           d: Detection, local2: Option<Account>, w2: World)
    requires ResolvesLinkable(ref, assocs, local, w)
    requires Resolves(local, w, d, local2, w2) && d.Detected?
    ensures Linkable(ref, assocs, d.account.id)
  {
  }

  /** An entity being saved. */
  class Entity {
    var fields: map<string, Value>

    constructor (fields: map<string, Value>)
      ensures this.fields == fields
    {
      this.fields := fields;
    }
  }

  /** The behaviour attached to one table. */
  class TenantScopeBehavior {
    const config: Config
    const alias: string            // the table's alias, `$this->_table->getAlias()`
    const accounts: AccountsTable
    const session: Session
    var account: Option<Account>   // the locally cached copy of the account

    ghost predicate Valid()
      reads this, accounts
    {
      accounts.Valid()
    }

    ghost function World(): World
      reads accounts, session
    {
      Snapshot(accounts, session)
    }

    constructor (config: Config, alias: string, accounts: AccountsTable, session: Session)
      requires accounts.Valid()
      ensures Valid()
      ensures this.config == config && this.alias == alias && this.account == None
      ensures this.accounts == accounts && this.session == session
    {
      this.config, this.alias, this.accounts, this.session := config, alias, accounts, session;
      this.account := None;
    }

    /** The account the next lookup can resolve has a row in a one-level association. */
    ghost predicate CanLink(assocs: map<string, Association>)
      reads this, accounts, session
    {
      ResolvesLinkable(ParseAccountField(config.accountField, alias), assocs, account, World())
    }

    /** TenantScopeBehavior::detectAccount. */
    method DetectAccount() returns (d: Detection)
      requires Valid()
      modifies accounts, session
      ensures Valid()
      ensures Detects(old(World()), World(), d)
    {
      if session.cached.Some? {
        return Detected(session.cached.value);
      }
      if session.auth.None? {
        return NoIdentity;
      }
      var user := session.auth.value;
      var found := FindByIdentity(accounts.rows, accounts.members, Some(user));
      if found == map[] {
        return NoAccount;
      }
      LatestExists(accounts.rows, accounts.members, user);
      var id :| IsLatest(accounts.rows, accounts.members, user, id);
      var saved := accounts.SetAccessedNow(found[id]);
      session.cached := Some(saved);
      d := Detected(saved);
    }

    /** The account lookup shared by beforeFind and beforeSave. */
    method Resolve() returns (d: Detection)
      requires Valid()
      modifies this, accounts, session
      ensures Valid()
      ensures Resolves(old(account), old(World()), d, account, World())
    {
      if account.Some? {
        return Detected(account.value);
      }
      d := DetectAccount();
      account := if d.Detected? then Some(d.account) else None;
    }

    /**
     * TenantScopeBehavior::beforeFind. Non-primary queries and `exists()`
     * probes pass unchanged; otherwise the account is resolved (a missing
     * user or account throws) and the account condition is added.
     */
    method BeforeFind(query: SelectQuery, primary: bool) returns (r: Outcome, ghost d: Detection)
      requires Valid()
      modifies this, query, accounts, session
      ensures Valid()
      ensures query.hydrate == old(query.hydrate) && query.select == old(query.select)
      ensures !primary || IsExistsProbe(old(query.hydrate), old(query.select)) ==>
        r == Done && query.conditions == old(query.conditions) && account == old(account) && World() == old(World())
      ensures primary && !IsExistsProbe(old(query.hydrate), old(query.select)) ==>
        && Resolves(old(account), old(World()), d, account, World())
        && (d.NoIdentity? ==> r == Thrown(NoUserData) && query.conditions == old(query.conditions))
        && (d.NoAccount? ==> r == Thrown(AccountRequired) && query.conditions == old(query.conditions))
        && (d.Detected? ==>
              && r == Done
              && query.conditions ==
                 old(query.conditions) + [ScopeCondition(config.accountField, alias, d.account.id)])
    {
      d := NoIdentity;
      if !primary {
        return Done, d;
      }
      if IsExistsProbe(query.hydrate, query.select) {
        return Done, d;
      }
      var resolved := Resolve();
      d := resolved;
      match resolved
      case NoIdentity =>
        return Thrown(NoUserData), d;
      case NoAccount =>
        return Thrown(AccountRequired), d;
      case Detected(a) =>
        var ref := ParseAccountField(config.accountField, alias);
        var field := ref.table + "." + ref.column;
        if !Direct(ref) {
          query.Match(ref.associations.value, FieldEquals(field, Str(a.id)));
        } else {
          query.Where(FieldEquals(field, Str(a.id)));
        }
        r := Done;
    }

    /**
     * TenantScopeBehavior::beforeSave. Only a primary save with
     * `autoLinkDirect` does anything: the account is resolved (a missing
     * user throws, a missing account skips silently) and the entity is
     * linked to it.
     */
    method BeforeSave(entity: Entity, primary: Option<bool>, assocs: map<string, Association>)
      returns (r: Outcome, ghost d: Detection)
      requires Valid() && (primary == Some(true) && config.autoLinkDirect ==> CanLink(assocs))
      modifies this, entity, accounts, session
      ensures Valid()
      ensures !(primary == Some(true) && config.autoLinkDirect) ==>
        r == Done && entity.fields == old(entity.fields) && account == old(account) && World() == old(World())
      ensures primary == Some(true) && config.autoLinkDirect ==>
        && Resolves(old(account), old(World()), d, account, World())
        && (d.NoIdentity? ==> r == Thrown(NoUserData) && entity.fields == old(entity.fields))
        && (d.NoAccount? ==> r == Done && entity.fields == old(entity.fields))
        && (d.Detected? ==>
              && Linkable(ParseAccountField(config.accountField, alias), assocs, d.account.id)
              && r == Done
              && entity.fields == AutoLinked(old(entity.fields), ParseAccountField(config.accountField, alias), d.account.id, assocs))
    {
      d := NoIdentity;
      if primary != Some(true) {
        return Done, d;
      }
      if !config.autoLinkDirect {
        return Done, d;
      }
      ghost var local, w := account, World();
      var resolved := Resolve();
      d := resolved;
      match resolved
      case NoIdentity =>
        return Thrown(NoUserData), d;
      case NoAccount =>
        return Done, d;
      case Detected(a) =>
        var ref := ParseAccountField(config.accountField, alias);
        ResolvedIsLinkable(ref, assocs, local, w, d, account, World());
        if Direct(ref) && !EmptyString(ref.column) {
          entity.fields := entity.fields[ref.column := Str(a.id)];
          return Done, d;
        }
        if OneLevel(ref) {
          var association := assocs[ref.associations.value];
          entity.fields := entity.fields[association.foreignKey := association.firstOwned[a.id]];
          return Done, d;
        }
        r := Done;
    }
  }
}
