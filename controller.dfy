/**
 * AccountsController: explicit account selection (`choose`) and account
 * creation (`create`). The identity is the request's `identity` attribute.
 */
module Controller {
  import opened Wrappers
  import opened Values
  import opened Store
  import opened Validation
  import TenantScope

  datatype ControllerError =
    | NoValidIdentity   // "No valid identity is available"
    | AccountNotFound   // "Account not found"

  datatype Response<T> = Ok(value: T) | Failed(error: ControllerError)

  /** What `create` ends with: a redirect to `choose`, or the form with the entity's errors. */
  datatype CreateView = Redirected | Form(errors: map<string, seq<Failure>>)

  /** PHP truthiness of the `$id` argument: given, and not "" or "0". */
  predicate IdGiven(id: Option<string>)
  {
    id.Some? && !EmptyString(id.value)
  }

  /**
   * AccountsController::choose, from before (`w`) to after (`w2`): without
   * an identity it throws; it lists the identity's accounts keyed by id;
   * a given id must be among them, and is then stamped and cached.
   */
  ghost predicate Chooses(w: World, identity: Option<UserId>, id: Option<string>, w2: World,
                          r: Response<map<AccountId, Account>>)
  {
    if identity.None? then r == Failed(NoValidIdentity) && w2 == w
    else
      var listing := FindByIdentity(w.rows, w.members, identity);
      if !IdGiven(id) then r == Ok(listing) && w2 == w
      else if id.value !in listing then r == Failed(AccountNotFound) && w2 == w
      else w2 == Select(w, id.value) && r == Ok(listing[id.value := w2.rows[id.value]])
  }

  /**
   * Choosing an account the identity is not a member of fails and writes
   * nothing, even when the account exists for someone else.
   */
  lemma ChooseRequiresMembership(w: World, user: UserId, id: string, w2: World, r: Response<map<AccountId, Account>>)
    requires Chooses(w, Some(user), Some(id), w2, r)
    requires !EmptyString(id) && Membership(id, user) !in w.members
    ensures r == Failed(AccountNotFound) && w2 == w
  {
  }

  /**
   * A successful choice: the identity is a member of the account, the
   * account's `accessed` becomes now, the session caches it, no other
   * account changes, and the listing holds exactly the member accounts.
   */
  lemma ChooseSelectsMemberAccount(w: World, user: UserId, id: string, w2: World, r: Response<map<AccountId, Account>>)
    requires WorldValid(w)
    requires Chooses(w, Some(user), Some(id), w2, r) && r.Ok? && !EmptyString(id)
    ensures Membership(id, user) in w.members
    ensures w2.rows[id].accessed == Some(w.clock) && w2.cached == Some(w2.rows[id])
    ensures forall o :: o in w.rows && o != id ==> w2.rows[o] == w.rows[o]
    ensures w2.members == w.members && w2.auth == w.auth && WorldValid(w2)
    ensures forall a :: a in r.value <==> a in w.rows && Membership(a, user) in w.members
  {
  }

  /** Listing without an id changes neither the session nor any timestamp. */
  lemma ChooseWithoutIdOnlyLists(w: World, user: UserId, id: Option<string>, w2: World, r: Response<map<AccountId, Account>>)
    requires Chooses(w, Some(user), id, w2, r) && !IdGiven(id)
    ensures w2 == w
    ensures r.Ok? && forall a :: a in r.value <==> a in w.rows && Membership(a, user) in w.members
  {
  }

  /**
   * Once a user has chosen an account, a later session of the same user
   * with nothing cached resolves, through the behaviour's fallback, to
   * that same account.
   */
  lemma ChosenAccountIsDetectedLater(w: World, user: UserId, id: string, w2: World, r: Response<map<AccountId, Account>>,
                                     w3: World, d: TenantScope.Detection)
    requires WorldValid(w) && w.auth == Some(user)
    requires Chooses(w, Some(user), Some(id), w2, r) && r.Ok? && !EmptyString(id)
    requires TenantScope.Detects(w2.(cached := None), w3, d)
    ensures d.Detected? && d.account.id == id
  {
  }

  /**
   * AccountsController::create: without an identity it throws; a GET shows
   * the empty form; a POST validates the data as a new account and, when
   * valid, saves it with the identity appended to its users, then
   * redirects; invalid data shows the form with the errors.
   */
  ghost predicate Creates(w: World, identity: Option<UserId>, isPost: bool, data: Data, users: seq<UserId>,
                          newId: AccountId, w2: World, r: Response<CreateView>)
  {
    if identity.None? then r == Failed(NoValidIdentity) && w2 == w
    else if !isPost then r == Ok(Form(map[])) && w2 == w
    else
      var errors := Errors(AccountRules, data, true);
      if errors != map[] then r == Ok(Form(errors)) && w2 == w
      else
        && r == Ok(Redirected)
        && w2 == w.(rows := w.rows[newId := NewAccount(data, newId)],
                    members := w.members + set u | u in users + [identity.value] :: Membership(newId, u))
  }

  /** A created account always has its creator among its members, and nothing else is lost. */
  lemma CreatorIsMember(w: World, user: UserId, isPost: bool, data: Data, users: seq<UserId>, newId: AccountId,
                        w2: World, r: Response<CreateView>)
    requires Creates(w, Some(user), isPost, data, users, newId, w2, r) && r == Ok(Redirected)
    ensures Membership(newId, user) in w2.members
    ensures newId in FindByIdentity(w2.rows, w2.members, Some(user))
    ensures w.members <= w2.members
    ensures forall id :: id in w.rows && id != newId ==> id in w2.rows && w2.rows[id] == w.rows[id]
  {
  }

  /** The controller, holding the accounts table and the session. */
  class AccountsController {
    const accounts: AccountsTable
    const session: Session

    constructor (accounts: AccountsTable, session: Session)
      ensures this.accounts == accounts && this.session == session
    {
      this.accounts, this.session := accounts, session;
    }

    /** AccountsController::choose. */
    method Choose(identity: Option<UserId>, id: Option<string>) returns (r: Response<map<AccountId, Account>>)
      requires accounts.Valid()
      modifies accounts, session
      ensures accounts.Valid()
      ensures Chooses(old(Snapshot(accounts, session)), identity, id, Snapshot(accounts, session), r)
    {
      if identity.None? {
        return Failed(NoValidIdentity);
      }
      var listing := FindByIdentity(accounts.rows, accounts.members, identity);
      if IdGiven(id) {
        if id.value !in listing {
          return Failed(AccountNotFound);
        }
        var saved := accounts.SetAccessedNow(listing[id.value]);
        session.cached := Some(saved);
        listing := listing[id.value := saved];
      }
      r := Ok(listing);
    }

    /**
     * AccountsController::create. `newId` is the UUID the ORM generates
     * for the inserted row.
     */
    method Create(identity: Option<UserId>, isPost: bool, data: Data, users: seq<UserId>, newId: AccountId)
      returns (r: Response<CreateView>)
      requires accounts.Valid() && newId !in accounts.rows
      modifies accounts
      ensures accounts.Valid()
      ensures Creates(old(Snapshot(accounts, session)), identity, isPost, data, users, newId, Snapshot(accounts, session), r)
    {
      if identity.None? {
        return Failed(NoValidIdentity);
      }
      if !isPost {
        return Ok(Form(map[]));
      }
      var patchUsers := users + [identity.value];
      var errors := Errors(AccountRules, data, true);
      if errors != map[] {
        return Ok(Form(errors));
      }
      accounts.Insert(NewAccount(data, newId), patchUsers);
      r := Ok(Redirected);
    }
  }
}
