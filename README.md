# Tenant scoping for a CakePHP multi-tenancy plugin, in Dafny

This project models the core of a CakePHP plugin that makes every table it is attached to
tenant-scoped. A tenant is an *account*. Users belong to accounts through the
`accounts_users` membership table. The plugin's `TenantScope` behaviour does four things:

- it resolves the *active account* for the request: first the session cache, then the
  caller's most recently accessed member account, which it stamps and caches;
- it parses the `accountField` setting, a small dot-path language (`account_id`,
  `Users.account_id`, `Orders.Users.account_id`), into a column, the table that holds it
  and an association path;
- it adds the account filter to every primary read, and leaves association sub-queries
  and `exists()` probes alone;
- it fills the account link of an entity on a primary save when `autoLinkDirect` is on.

The model also covers the two pieces this logic depends on. `AccountsTable` supplies the
membership finder, the `accessed` stamp and the validation rules. `AccountsController`
supplies explicit account selection (`choose`) and account creation (`create`).

Modules, one per file:

- `Values`: PHP values, `empty()` on strings and the `(string)` cast.
- `FieldPath`: the dot-path parser, with `explode`/`implode` proved inverse.
- `Store`: accounts, memberships, the session, a monotone clock, `findByIdentity`,
  `setAccessedNow` and the "latest account" order.
- `Query`: the select query that `where` and `matching` change in place, and what its
  conditions mean for a row.
- `Validation`: `validationDefault` as a rule engine plus the account rules, and the
  `isUnique` rule.
- `TenantScope`: the behaviour class and the specifications of `detectAccount`,
  `beforeFind` and `beforeSave`.
- `Controller`: `choose` and `create`.

State the source changes in place is modelled as classes:

- `AccountsTable` holds `rows`, `members` and `clock`.
- `Session` holds the cached account and the `Auth` user.
- `SelectQuery` holds the query's conditions.
- `Entity` holds the saved entity's fields.
- `TenantScopeBehavior` holds the local `$account` copy.

Each method is proved against a relational specification over the `World` value (store
plus session): `Detects`, `Resolves`, `Chooses` and `Creates`. The lemmas state what the
source promises about those specifications.

Where the code and the plugin's stated intent differ, the model follows the code:

- `beforeSave` sets a direct account column **unconditionally**
  (`TenantScopeBehavior.php:241-243`). The configuration comment at line 37 says it is set
  only when the entity does not have it. The one-level branch likewise overwrites a foreign
  key that is already set (lines 263-264). Both overwrites are idempotent (`AutoLinkIdempotent`).
- In `beforeSave`, only a `null` from `detectAccount` is skipped silently. A missing `Auth`
  user throws from `detectAccount` (line 78), and that exception propagates out of
  `beforeSave`.
- When a user has no accounts, `detectAccount` returns `null`; it raises nothing. Only
  `beforeFind` turns that into an exception (lines 185-188).
- Saving in `setAccessedNow` writes only the dirty `accessed` column, so no other modelled
  column of the stored row changes (`modified` is left out, see below).

`accessed` is a field the client may set on `create` (`Account::$_accessible`). A
client-supplied future `accessed` makes that account outrank later selections. So the
"last selected wins" lemmas assume `Settled`: every stored `accessed` lies before the clock.
`AccountsTable.Insert` keeps `Settled` only when the new `accessed` is empty or in the past.

## Model

| member | source | states |
|---|---|---|
| `FieldPath.Join` | src/Model/Behavior/TenantScopeBehavior.php:143 | `implode('.', parts)` starts with the first segment followed by a dot; on dot-free segments the result holds a dot exactly when there are two segments or more (`SplitJoin` proves `explode` inverts it) |
| `FieldPath.Split` | src/Model/Behavior/TenantScopeBehavior.php:137 | `explode('.', s)` yields at least one segment, none holds a dot, and `implode` of them gives `s` back |
| `FieldPath.SplitJoin` | src/Model/Behavior/TenantScopeBehavior.php:137-143 | `explode` undoes `implode` on dot-free segments, so the two are inverse |
| `FieldPath.ParseAccountField` | src/Model/Behavior/TenantScopeBehavior.php:125-145 | with no dot: `(field, current alias, null)`; with dots: the path plus `.` plus the column rebuilds the input, the column has no dot, and the table is the path's last segment |
| `FieldPath.ParseUnique` | src/Model/Behavior/TenantScopeBehavior.php:115-120 | the dotted parse is the only split into a dot-free column after the last dot, with the path's last segment as table |
| `FieldPath.OneLevelShape` | src/Model/Behavior/TenantScopeBehavior.php:241-246 | a path is one association deep exactly when the field has two segments and the first is not PHP-empty; its table is then that association |
| `FieldPath.BareColumnExample` | src/Model/Behavior/TenantScopeBehavior.php:117-120 | `account_id` parses to `(account_id, alias, null)` |
| `FieldPath.DottedExample` | src/Model/Behavior/TenantScopeBehavior.php:117-120 | `SomeTable.OtherTable.column` parses to `(column, OtherTable, SomeTable.OtherTable)` |
| `TenantScope.DefaultConfigScopesOwnColumn` | src/Model/Behavior/TenantScopeBehavior.php:23-57 | by default the filter is `Alias.account_id = id` on the table itself, and auto-linking is off |
| `Store.Recency` | src/Model/Behavior/TenantScopeBehavior.php:86 | sort key of `accessed DESC`: a NULL `accessed` ranks below every timestamp |
| `Store.FindByIdentity` | src/Model/Table/AccountsTable.php:116-127 | no identity finds nothing (`1 = 0`); an identity finds exactly the stored accounts with a membership row for that user, keyed by id |
| `Store.Select` | src/Model/Behavior/TenantScopeBehavior.php:92-95 | becoming the current account: the same ids, memberships and user; that account's `accessed` becomes the clock reading, no other account changes, the clock advances, and the session caches the stamped copy |
| `Store.LatestExists` | src/Model/Behavior/TenantScopeBehavior.php:83-91 | a user with at least one account has an account of greatest `accessed`, so `first()` is not null |
| `Store.SelectValid` | src/Model/Table/AccountsTable.php:98-102 | stamping and caching an account keeps ids, memberships and "every `accessed` is before the clock" |
| `Store.SelectIsNewest` | src/Model/Table/AccountsTable.php:98-102 | stamping moves the account's `accessed` strictly forward, leaves every other account unchanged and makes it strictly the newest |
| `Store.SelectedIsOnlyLatest` | src/Model/Behavior/TenantScopeBehavior.php:83-87 | after an account is stamped, it is the one and only latest account of each of its members |
| `Store.AccountsTable.SetAccessedNow` | src/Model/Table/AccountsTable.php:98-102 | sets `accessed` of that account to now and changes no other column, account or membership; the clock advances |
| `Store.AccountsTable.Insert` | src/Controller/AccountsController.php:40 | the new account is stored under its id and linked to every listed user; nothing else changes |
| `Query.IsExistsProbe` | src/Model/Behavior/TenantScopeBehavior.php:169-173 | a query is an `exists()` probe exactly when hydration is off and the select clause is strictly (`===`) one entry with string key `existing` and integer value 1 |
| `Query.SelectsAppend` | src/Model/Behavior/TenantScopeBehavior.php:199-207 | adding a condition selects exactly the rows that met the old conditions and also meet the new one |
| `Query.SelectQuery.Where` | src/Model/Behavior/TenantScopeBehavior.php:207 | `where` appends one condition; hydration and the select clause stay as they were |
| `Query.SelectQuery.Match` | src/Model/Behavior/TenantScopeBehavior.php:199-201 | `matching` appends one association-existence condition; nothing else changes |
| `TenantScope.ScopeCondition` | src/Model/Behavior/TenantScopeBehavior.php:195-207 | the condition added for an account holds of a row exactly when the row belongs to that account under the configured `accountField`, read off its dot segments |
| `TenantScope.ScopedQuerySelectsOwned` | src/Model/Behavior/TenantScopeBehavior.php:195-208 | the scoped query selects exactly the rows the original query selects that belong to the account: the last segment of `accountField` is the column, the segment before it its table, and the rest the association path |
| `TenantScope.DirectScopeExcludesOthers` | src/Model/Behavior/TenantScopeBehavior.php:203-207 | when `accountField` needs no association, a row belonging to another account is never selected |
| `TenantScope.AutoLinked` | src/Model/Behavior/TenantScopeBehavior.php:241-266 | a direct column is set to the account id; a one-level path sets the foreign key to the account's associated row; deeper paths change nothing; no other field changes |
| `TenantScope.AutoLinkIdempotent` | src/Model/Behavior/TenantScopeBehavior.php:241-243 | linking twice gives the same fields as linking once |
| `TenantScope.DetectIsStableInSession` | src/Model/Behavior/TenantScopeBehavior.php:70-74 | after a detection, the next detection in the session returns the same account and touches nothing |
| `TenantScope.DetectKeepsStoreValid` | src/Model/Behavior/TenantScopeBehavior.php:92-95 | detection adds and removes no account or membership and never moves an `accessed` backwards |
| `TenantScope.DetectFindsLastSelected` | src/Model/Behavior/TenantScopeBehavior.php:82-96 | with nothing cached, detection returns the account most recently stamped for the user |
| `TenantScope.LaterAccessedAccountWins` | src/Model/Behavior/TenantScopeBehavior.php:82-96 | of two member accounts, the one accessed later is returned and stamped with now |
| `TenantScope.TenantScopeBehavior.DetectAccount` | src/Model/Behavior/TenantScopeBehavior.php:68-97 | cache hit: returned, nothing changes; no `Auth` user: throws; no accounts: null, nothing changes; otherwise returns a member account of greatest `accessed`, stamped and cached |
| `TenantScope.TenantScopeBehavior.Resolve` | src/Model/Behavior/TenantScopeBehavior.php:182-189 | the local account is reused without detection; otherwise the detected account (or null) becomes the local one |
| `TenantScope.TenantScopeBehavior.BeforeFind` | src/Model/Behavior/TenantScopeBehavior.php:154-210 | non-primary queries and `exists()` probes are untouched; a missing user or account throws with the query unchanged; otherwise exactly one scope condition is appended |
| `TenantScope.TenantScopeBehavior.BeforeSave` | src/Model/Behavior/TenantScopeBehavior.php:217-267 | nothing unless `_primary` is true and `autoLinkDirect` is on; a missing user throws; a missing account leaves the entity as it was; otherwise the entity's fields become their auto-linked form |
| `Validation.Broken` | src/Model/Table/AccountsTable.php:67-79 | a value has no rule failures exactly when it passes every rule; every failing rule is reported, and each failure names a rule it breaks |
| `Validation.Errors` | src/Model/Table/AccountsTable.php:65-82 | the error map holds exactly the fields with a failure; a field with one rule set maps to exactly its failures |
| `Validation.NoErrorsIffNoFailures` | src/Model/Table/AccountsTable.php:65-82 | the entity has no errors exactly when no field has a failure |
| `Validation.ActiveRules` | src/Model/Table/AccountsTable.php:67-69 | `is_active` passes exactly when absent or one of `true, false, 0, 1, '0', '1'`; null and `''` are rejected as empty |
| `Validation.NameRules` | src/Model/Table/AccountsTable.php:71-75 | `name` passes exactly when present on create and, when given, a non-empty scalar of at most 255 characters |
| `Validation.AccessedRules` | src/Model/Table/AccountsTable.php:77-79 | `accessed` passes exactly when absent, empty or a date-time |
| `Validation.AccountDataValid` | src/Model/Table/AccountsTable.php:65-82 | the account rules accept data exactly when all three fields are acceptable |
| `Validation.NameRequiredOnCreate` | src/Model/Table/AccountsTable.php:74 | creating without `name` always gives the single error "required" on `name` |
| `Validation.NewAccount` | src/Controller/AccountsController.php:36-38 | accepted data yields an account with the new id; its name is the sent scalar cast to string, at most 255 characters; `is_active` is true unless a false value was sent; `accessed` is the sent date-time, or NULL when none was sent |
| `Validation.IdRuleGuardsInsert` | src/Model/Table/AccountsTable.php:93 | the `isUnique(['id'])` rule accepts a new account exactly when storing it adds a row rather than overwriting one; an accepted insert keeps every stored account and a consistent store |
| `Controller.ChooseRequiresMembership` | src/Controller/AccountsController.php:61-70 | choosing an account the identity is not a member of throws "not found" and writes nothing, even if the account exists |
| `Controller.ChooseSelectsMemberAccount` | src/Controller/AccountsController.php:60-76 | a successful choice is of a member account; its `accessed` becomes now, the session caches it, no other account changes, and the listing holds exactly the member accounts |
| `Controller.ChooseWithoutIdOnlyLists` | src/Controller/AccountsController.php:60-66 | without an id nothing changes, and the listing holds exactly the member accounts |
| `Controller.ChosenAccountIsDetectedLater` | src/Controller/AccountsController.php:71-74 | after a choice, a new session of the same user resolves to the chosen account |
| `Controller.CreatorIsMember` | src/Controller/AccountsController.php:33-42 | a created account always has its creator as a member, and no existing account or membership is lost |
| `Controller.AccountsController.Choose` | src/Controller/AccountsController.php:53-77 | no identity throws; lists the identity's accounts by id; a given id must be among them, and is then stamped and cached, also in the listing |
| `Controller.AccountsController.Create` | src/Controller/AccountsController.php:25-45 | no identity throws; a GET shows the empty form; on POST, invalid data shows the errors and saves nothing; valid data saves the account with the identity added to its users, then redirects |

## Left out

- Session wrappers (`src/Account.php`), the view helper and cell, the template, routes, permissions and bootstrap are not modelled. They only read and write one session key or render HTML. The session is one optional cached account plus the `Auth` user.
- `DateTime::now()` is a counter (`clock`) that `setAccessedNow` reads and then advances.
- Store.AccountsTable.SetAccessedNow: does not model the `modified` column that the `Timestamp` behaviour also sets on save. Columns `created` and `modified` are left out of `Account`.
- Store.SelectIsNewest, Store.SelectedIsOnlyLatest, TenantScope.DetectFindsLastSelected and Controller.ChosenAccountIsDetectedLater: these rely on every stamp reading a strictly later clock value. The `accessed` column is a `datetime` and stores whole seconds. Two selections within the same second store equal values, so a later session may resolve to either account, and a second stamp in the same second does not move `accessed` forward.
- TenantScope.TenantScopeBehavior.DetectAccount: `ORDER BY accessed DESC ... first()` does not define an order between accounts with equal `accessed`. The model returns any one of them. NULL ranks lowest, as MySQL sorts NULLs in a descending sort.
- SQL semantics of `leftJoinWith` and `matching` are abstract. Rows are maps from `Table.column` to values. A path's join is given by a function `reach(path, row)`. The caller's own conditions are labels with a meaning supplied as a parameter.
- Association lookup (`getAssociation`, `fetchTable`, `getPrimaryKey`) is a given map from path to foreign key and to "primary key of the first row each account owns". The source fails if that row is missing. The model turns this into the precondition `CanLink`, required only for a primary save with `autoLinkDirect` on: the row exists for the account the lookup can resolve (the local copy, else the session's account, else every member account of the `Auth` user with the greatest `accessed`).
- Date-time strings are not parsed: a value the validator's `dateTime` rule accepts is a `Time` value, and every other string is not a date.
- `save()` failing is not modelled. `setAccessedNow`'s result is ignored by its callers. In `create`, the `isUnique(['id'])` rule sees a null id and passes, so it never rejects there. The ORM then generates a fresh UUID. That UUID is the `newId` parameter, and the precondition says it is not stored yet. Id uniqueness is built into the `rows` map; `Validation.IdRuleGuardsInsert` states the rule's meaning for an insert with an id.
- `create` stores one membership per user in the patched `users` list. Creating or loading user records through the `belongsToMany` marshaller is not modelled. Redirect URLs and view variables are reduced to `Redirected` and `Form(errors)`.
- Exception messages are reduced to the error constructors. Behaviour configuration is fixed when the behaviour is constructed (`setConfig` at run time is not modelled).
