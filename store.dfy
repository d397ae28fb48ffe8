/**
 * The accounts store (AccountsTable) and the session, as the tenant-scoping
 * code sees them: accounts keyed by id, account/user memberships, a session
 * holding the cached current account and the logged-in user, and a
 * monotone clock standing in for `DateTime::now()`.
 */
module Store {
  import opened Wrappers

  type AccountId = string
  type UserId = string

  /** A row of `accounts`; `accessed` is a clock reading, or NULL. */
  datatype Account = Account(id: AccountId, isActive: bool, name: string, accessed: Option<nat>)

  /** A row of `accounts_users`: `user` may work in `account`. */
  datatype Membership = Membership(account: AccountId, user: UserId)

  /** The accounts store and the session together, as one value. */
  datatype World = World(
    rows: map<AccountId, Account>,
    members: set<Membership>,
    clock: nat,
    cached: Option<Account>,
    auth: Option<UserId>)

  /**
   * Sort key of `ORDER BY accessed DESC`: a NULL `accessed` comes after
   * every timestamp, as MySQL orders NULLs in a descending sort.
   */
  function Recency(a: Account): (k: int)
    ensures k == -1 <==> a.accessed.None?
    ensures a.accessed.Some? ==> k == a.accessed.value
  {
    match a.accessed
    case None => -1
    case Some(t) => t
  }

  /** Every account is stored under its own id, and memberships point at stored accounts. */
  ghost predicate Consistent(rows: map<AccountId, Account>, members: set<Membership>)
  {
    && (forall id :: id in rows ==> rows[id].id == id)
    && (forall m :: m in members ==> m.account in rows)
  }

  /** Every recorded `accessed` lies in the past of the clock. */
  ghost predicate Settled(rows: map<AccountId, Account>, clock: nat)
  {
    forall id :: id in rows && rows[id].accessed.Some? ==> rows[id].accessed.value < clock
  }

  ghost predicate WorldValid(w: World)
  {
    Consistent(w.rows, w.members) && Settled(w.rows, w.clock)
  }

  /**
   * AccountsTable::findByIdentity followed by `indexBy('id')`: with no
   * identity the query gets `1 = 0` and finds nothing; otherwise it finds
   * exactly the accounts joined to a membership row for that user.
   */
  function FindByIdentity(rows: map<AccountId, Account>, members: set<Membership>, identity: Option<UserId>)
    : (found: map<AccountId, Account>)
    ensures identity.None? ==> found == map[]
    ensures identity.Some? ==>
      forall id :: id in found <==> id in rows && Membership(id, identity.value) in members
    ensures forall id :: id in found ==> id in rows && found[id] == rows[id]
  {
    match identity
    case None => map[]
    case Some(user) => map id | id in rows && Membership(id, user) in members :: rows[id]
  }

  /** `id` is a member account of `user` that a query ordered by `accessed DESC` may return first. */
  predicate IsLatest(rows: map<AccountId, Account>, members: set<Membership>, user: UserId, id: AccountId)
  {
    var found := FindByIdentity(rows, members, Some(user));
    id in found && forall other :: other in found ==> Recency(found[other]) <= Recency(found[id])
  }

  /**
   * Becoming the current account: AccountsTable::setAccessedNow stamps
   * `accessed` with the clock, and the stamped copy is written to the
   * session cache (AccountsController::choose, TenantScopeBehavior::detectAccount).
   */
  function Select(w: World, id: AccountId): (w2: World)
    requires id in w.rows
    ensures w2.rows.Keys == w.rows.Keys && w2.members == w.members && w2.auth == w.auth
    ensures w2.rows[id] == w.rows[id].(accessed := Some(w.clock))
    ensures forall o :: o in w.rows && o != id ==> w2.rows[o] == w.rows[o]
    ensures w2.clock == w.clock + 1 && w2.cached == Some(w2.rows[id])
  {
    var stamped := w.rows[id].(accessed := Some(w.clock));
    w.(rows := w.rows[id := stamped], clock := w.clock + 1, cached := Some(stamped))
  }

  /** A user with at least one account has a latest one (the query's `first()` is not empty). */
  lemma {:induction false} LatestExists(rows: map<AccountId, Account>, members: set<Membership>, user: UserId)
    requires FindByIdentity(rows, members, Some(user)) != map[]
    ensures exists id :: IsLatest(rows, members, user, id)
  {
    var found := FindByIdentity(rows, members, Some(user));
    var best := MaxRecencyExists(found, found.Keys);
    assert IsLatest(rows, members, user, best);
  }

  /** An id of greatest recency among a non-empty set of keys. */
  lemma {:induction false} MaxRecencyExists(m: map<AccountId, Account>, ids: set<AccountId>)
    returns (best: AccountId)
    requires ids != {} && ids <= m.Keys
    ensures best in ids
    ensures forall o :: o in ids ==> Recency(m[o]) <= Recency(m[best])
    decreases |ids|
  {
    var x :| x in ids;
    if ids == {x} {
      best := x;
    } else {
      var rest := MaxRecencyExists(m, ids - {x});
      best := if Recency(m[x]) <= Recency(m[rest]) then rest else x;
    }
  }

  /** Selecting keeps the store consistent and every timestamp in the clock's past. */
  lemma SelectValid(w: World, id: AccountId)
    requires WorldValid(w) && id in w.rows
    ensures WorldValid(Select(w, id))
  {
  }

  /**
   * Selecting moves `accessed` of the selected account strictly forward,
   * leaves every other account as it was, and makes the selected account
   * strictly the most recent of all.
   */
  lemma SelectIsNewest(w: World, id: AccountId)
    requires WorldValid(w) && id in w.rows
    ensures Recency(Select(w, id).rows[id]) > Recency(w.rows[id])
    ensures forall o :: o in w.rows && o != id ==> Select(w, id).rows[o] == w.rows[o]
    ensures forall o :: o in w.rows && o != id ==> Recency(Select(w, id).rows[o]) < Recency(Select(w, id).rows[id])
  {
  }

  /**
   * After an account is selected, it is the one and only latest account of
   * every user who is a member of it.
   */
  lemma SelectedIsOnlyLatest(w: World, id: AccountId, user: UserId, other: AccountId)
    requires WorldValid(w) && id in w.rows
    requires Membership(id, user) in w.members
    ensures IsLatest(Select(w, id).rows, w.members, user, other) <==> other == id
  {
  }

  /** The `accounts` table; its methods are the ones the tenant-scoping code calls. */
  class AccountsTable {
    var rows: map<AccountId, Account>
    var members: set<Membership>
    var clock: nat

    ghost predicate Valid()
      reads this
    {
      Consistent(rows, members)
    }

    constructor (rows: map<AccountId, Account>, members: set<Membership>, clock: nat)
      requires Consistent(rows, members)
      ensures Valid()
      ensures this.rows == rows && this.members == members && this.clock == clock
    {
      this.rows, this.members, this.clock := rows, members, clock;
    }

    /**
     * AccountsTable::setAccessedNow: sets `accessed` of the entity to now
     * and saves it. Only `accessed` is dirty, so only that column of the
     * stored row changes; the clock moves on.
     */
    method SetAccessedNow(account: Account) returns (saved: Account)
      requires Valid() && account.id in rows
      modifies this
      ensures Valid()
      ensures saved == account.(accessed := Some(old(clock)))
      ensures rows == old(rows)[account.id := old(rows)[account.id].(accessed := Some(old(clock)))]
      ensures members == old(members) && clock == old(clock) + 1
      ensures old(Settled(rows, clock)) ==> Settled(rows, clock)
    {
      saved := account.(accessed := Some(clock));
      rows := rows[account.id := rows[account.id].(accessed := Some(clock))];
      clock := clock + 1;
    }

    /** Inserting a new account with its memberships (the `save` of AccountsController::create). */
    method Insert(account: Account, users: seq<UserId>)
      requires Valid() && account.id !in rows
      modifies this
      ensures Valid()
      ensures rows == old(rows)[account.id := account]
      ensures members == old(members) + set u | u in users :: Membership(account.id, u)
      ensures clock == old(clock)
      ensures old(Settled(rows, clock)) && (account.accessed.Some? ==> account.accessed.value < clock) ==>
        Settled(rows, clock)
    {
      rows := rows[account.id := account];
      members := members + set u | u in users :: Membership(account.id, u);
    }
  }

  /** The session: the cached current account and the `Auth` user. */
  class Session {
    var cached: Option<Account>
    var auth: Option<UserId>

    constructor (cached: Option<Account>, auth: Option<UserId>)
      ensures this.cached == cached && this.auth == auth
    {
      this.cached, this.auth := cached, auth;
    }
  }

  /** The store and the session as one value. */
  ghost function Snapshot(table: AccountsTable, session: Session): World
    reads table, session
  {
    World(table.rows, table.members, table.clock, session.cached, session.auth)
  }
}
