# go-accounts in Dafny

A model of the core of `go-accounts`, a small Go data-access layer for
multi-tenant accounts and their members.

It has two parts.

- **The query-condition builder.** Callers describe a listing with
  conditions. Each condition is a SQL fragment, its parameters and a query
  section: WHERE, ORDER BY, LIMIT or OFFSET. The assembly step turns a list
  of conditions into the tail of a SELECT statement and its parameter
  list. Module `Conditions` in `conditions.dfy` models this part.
- **The interactor.** It implements the use cases on top of an account
  repository and a member repository:
  - create an account together with its owner membership, with validation
    and a compensating delete;
  - update an account;
  - delete an account and then its memberships;
  - add and remove members;
  - list the accounts of a user, optionally with the user's role on each;
  - check a role.

  Module `Interactors` in `interactor.dfy` models the interactor.

Supporting modules:

- `Entities` (`entities.dfy`) holds the records, the predefined roles and
  the errors.
- `Stores` (`stores.dfy`) holds two in-memory repositories. These are
  classes over a table of rows kept in insertion order. Each store has an
  `outage` set that names the operations that fail. The store methods
  evaluate the WHERE fragments the condition builder produces, of the
  shapes `col=?` and `col IN (?, ...)`. A WHERE fragment the table cannot
  run fails the statement, as a database rejects it. The in-memory stores
  also refuse a second LIMIT or OFFSET condition, whose parameter would
  have no placeholder. That refusal is a choice of these stores, not
  something the program or its driver promises (see "## Left out").

Properties proved:

- Limit defaults to 100 and offset floors at 0.
- Every single-value filter has a fixed fragment and exactly one parameter.
- The exact text of an ORDER BY condition.
- The assembled text is `WHERE` (the WHERE fragments joined by ` AND `),
  then the last ORDER BY, the last LIMIT and the last OFFSET. Each part
  appears only when present.
- The parameter count is preserved.
- Every placeholder of the assembled text has its parameter. When there is
  at most one LIMIT and one OFFSET, the counts agree exactly. A second LIMIT
  breaks this (see "## Findings").
- The parameters are grouped by section.
- The order in which `Insert` validates and writes, and what each failure
  leaves in the stores. This includes the compensating delete that undoes
  the account insert.
- The cascade of `Delete`.
- The role join keeps the account order and takes the role of the user's
  last membership of each account.
- The user listings return exactly the accounts on which the user has a
  membership that passes the caller's conditions.

## Model

| member | source | states |
|---|---|---|
| Conditions.OrderString | conditions.go:58-63 | each of the four predefined orderings renders as its column and direction (`created_at ASC`, `created_at DESC`, `updated_at ASC`, `updated_at DESC`); any other value renders as "" |
| Conditions.OrderStringKnown | conditions.go:58-63 | an ordering renders as non-empty text exactly when it is one of the four predefined orderings; any other value renders as "" |
| Conditions.Disabled | conditions.go:81-87 | a WHERE condition with fragment `disabled=?` and exactly one parameter, the flag given; one placeholder per parameter |
| Conditions.Role | conditions.go:90-96 | a WHERE condition with fragment `role=?` and exactly one parameter, the role given; one placeholder per parameter |
| Conditions.UserID | conditions.go:99-105 | a WHERE condition with fragment `user_id=?` and exactly one parameter, the id given; one placeholder per parameter |
| Conditions.AccountID | conditions.go:118-124 | a WHERE condition with fragment `account_id=?` and exactly one parameter, the id given; one placeholder per parameter |
| Conditions.UserIDs | conditions.go:108-115 | a WHERE condition; for a non-empty list, the fragment is `user_id IN (...)` with one `?` per id and the ids as parameters, in order |
| Conditions.AccountIDs | conditions.go:127-134 | as UserIDs, for column `account_id` |
| Conditions.IDs | conditions.go:137-144 | as UserIDs, for column `id` |
| Conditions.OrderBy | conditions.go:147-160 | an ORDER BY condition with no parameters; its text is `ORDER BY` followed by the key list of the orderings, and it holds no placeholder |
| Conditions.OrderByKeys | conditions.go:149-155 | the key list is " " plus the first ordering's text, then ", " plus each later ordering's text |
| Conditions.Limit | conditions.go:163-172 | a LIMIT condition `LIMIT ?` with one positive parameter: the value when it is positive, 100 otherwise; one placeholder per parameter |
| Conditions.Offset | conditions.go:175-184 | an OFFSET condition `OFFSET ?` with one non-negative parameter: the value when it is non-negative, 0 otherwise; one placeholder per parameter |
| Conditions.ConditionsToQuery | conditions.go:187-225 | no conditions give an empty text and no parameters; otherwise the text is ` WHERE ` plus the WHERE fragments joined by ` AND ` (only if there are any), then the last ORDER BY, LIMIT and OFFSET fragments in that order, each only if present; the parameters are all parameters in sorted order, as many as in the input; for conditions with one placeholder per parameter, the text holds one placeholder per value of `BoundParams`; if there is also at most one LIMIT and one OFFSET and no ORDER BY parameter, it holds one per returned parameter |
| Conditions.Accumulate | conditions.go:196-209 | after the loop, the WHERE accumulator holds every WHERE fragment of the sorted list, each after ` AND `; the ORDER BY, LIMIT and OFFSET accumulators hold the last fragment of their section, or "" without one; the parameters are all parameters in list order |
| Conditions.AssemblyStep | conditions.go:197-209 | one loop step: a WHERE fragment is appended to the WHERE list, a fragment of another section replaces that section's last fragment, and the condition's parameters are appended |
| Conditions.WhereAccumulator | conditions.go:211-213 | the ` AND `-prefixed accumulator is empty exactly when there are no WHERE fragments; trimming its leading ` AND ` leaves the fragments joined by ` AND ` |
| Conditions.PrefixedIsSepJoin | conditions.go:200 | accumulating `sep + part` for each part gives `sep` followed by the parts joined by `sep` |
| Conditions.ParamCountPreserved | conditions.go:208 | sorting does not change the total number of parameters |
| Conditions.SortedSplit | conditions.go:192-194 | a list sorted by section is its WHERE conditions, then its ORDER BY, LIMIT and OFFSET conditions |
| Conditions.ParamsGroupedBySection | conditions.go:192-209 | the parameter list is the WHERE parameters, then the ORDER BY, LIMIT and OFFSET parameters; each group is a permutation of the input's parameters of that section |
| Conditions.WhereFragmentsPermuted | conditions.go:192-200 | the WHERE fragments joined are a permutation of the input's WHERE fragments |
| Conditions.OrderByNoPlaceholder | conditions.go:147-160 | an ORDER BY text holds no placeholder, whatever the orderings |
| Conditions.BoundParamsCount | conditions.go:196-222 | for conditions with one placeholder per parameter, in any order, the assembled text holds exactly one placeholder per parameter of the fragments it keeps: every WHERE condition and the last ORDER BY, LIMIT and OFFSET condition |
| Conditions.BoundParamsAll | conditions.go:201-208 | when a sorted list has at most one LIMIT and one OFFSET and no ORDER BY parameters, the parameters of the kept fragments are all the parameters collected |
| Conditions.PlaceholdersMatch | conditions.go:187-225 | however the sort arranges such a list, the assembled text holds exactly as many placeholders as the returned parameter list has values |
| Conditions.RepeatedLimitUnbound | conditions.go:201-208 | for `Limit(u), Limit(v)` the text is ` LIMIT ?` with one placeholder, while both parameters are returned; only the second value has a placeholder |
| Stores.UserIDSelects | conditions.go:99-105 | a member passes `UserID(uid)` exactly when its user is `uid` |
| Stores.AccountIDSelects | conditions.go:118-124 | a member passes `AccountID(aid)` exactly when its account is `aid` |
| Stores.RoleSelects | conditions.go:90-96 | a member passes `Role(r)` exactly when its role is `r` |
| Stores.DisabledSelects | conditions.go:81-87 | an account passes `Disabled(v)` exactly when its flag is `v` |
| Stores.IDsRunnable | conditions.go:137-144 | the accounts table can run the IN filter over a non-empty id list |
| Stores.IDsSelectAccounts | conditions.go:137-144 | for a non-empty list, an account passes `IDs(ids)` exactly when its id is listed |
| Stores.UserIDsSelectMembers | conditions.go:108-115 | for a non-empty list, a member passes `UserIDs(ids)` exactly when its user is listed |
| Stores.AccountIDsSelectMembers | conditions.go:127-134 | for a non-empty list, a member passes `AccountIDs(ids)` exactly when its account is listed |
| Stores.DropAppendedAccount | interactor.go:86 | deleting an account right after inserting it restores the table |
| Stores.AccountStore.GetByID | interactor.go:18 | the row with the id; NotFound when there is none; an error when the store fails |
| Stores.AccountStore.GetList | interactor.go:19 | exactly the rows passing every condition, in table order; an error when the store fails, a WHERE fragment cannot run, or there is more than one LIMIT or OFFSET condition, which these stores refuse by choice |
| Stores.AccountStore.Insert | interactor.go:20 | appends the row unless its id is taken or the store fails; ids stay unique |
| Stores.AccountStore.Update | interactor.go:21 | overwrites the row with the same id; NotFound when there is none |
| Stores.AccountStore.Delete | interactor.go:22 | removes the row with the id; NotFound when there is none |
| Stores.MemberStore.GetByID | interactor.go:27 | the row with the id; NotFound when there is none |
| Stores.MemberStore.HasRole | interactor.go:28 | no error exactly when a row has the account, user and role given; otherwise NotFound, or an error when the store fails |
| Stores.MemberStore.GetList | interactor.go:29 | exactly the rows passing every condition, in table order; an error when the store fails, a WHERE fragment cannot run, or there is more than one LIMIT or OFFSET condition, which these stores refuse by choice |
| Stores.MemberStore.Insert | interactor.go:30 | appends the row unless its id is taken or the store fails |
| Stores.MemberStore.Update | interactor.go:31 | changes the role of the row with the same id; NotFound when there is none |
| Stores.MemberStore.Delete | interactor.go:32 | removes the row with the id; NotFound when there is none |
| Stores.MemberStore.DeleteByAccountID | interactor.go:33 | removes every row of the account and keeps every other row |
| Stores.MemberStore.DeleteByUserID | interactor.go:34 | removes every row of the user and keeps every other row |
| Interactors.Interactor.constructor | interactor.go:45-50 | the interactor uses the two stores given |
| Interactors.Interactor.GetByID | interactor.go:53-55 | the account store's answer for the id |
| Interactors.Interactor.GetList | interactor.go:58-60 | the account store's answer for the conditions: exactly the passing rows, in table order with nothing dropped or repeated; an error of the store kind exactly when the store fails, a WHERE fragment cannot run, or there is more than one LIMIT or OFFSET condition, which these stores refuse by choice |
| Interactors.Interactor.Insert | interactor.go:63-90 | id and creation time are filled in before validation and kept on every outcome; a missing name gives NameMissed, checked before the owner; then a missing owner gives OwnerIDMissed; neither validation failure writes anything; a failed account insert returns its error and writes nothing; a failed owner insert returns its error and the account is deleted again unless that delete fails; success adds the account and exactly one owner membership of `uid` |
| Interactors.Interactor.Update | interactor.go:93-105 | an empty id gives NotExistedAccount and changes nothing; otherwise a missing update time is filled in, then a missing name gives NameMissed and writes nothing; otherwise the account store's update result |
| Interactors.Interactor.Delete | interactor.go:108-116 | a failed account delete returns its error and leaves both stores unchanged; otherwise the account is removed and then every membership of it; a cascade error is returned with the account already gone; on success neither the account nor any membership of it remains |
| Interactors.Interactor.AddMember | interactor.go:119-127 | inserts one membership with the account, user and role given; on success the user holds the role on the account |
| Interactors.Interactor.DeleteMemberByID | interactor.go:130-132 | the member store's delete by id |
| Interactors.Interactor.DeleteMembersByAccountID | interactor.go:135-137 | the member store's delete of an account's memberships |
| Interactors.Interactor.DeleteMembersByUserID | interactor.go:140-142 | the member store's delete of a user's memberships |
| Interactors.Interactor.GetMembersList | interactor.go:145-151 | exactly the memberships passing every condition, in table order with nothing dropped or repeated; or only the store's error, exactly when the store fails, a WHERE fragment cannot run, or there is more than one LIMIT or OFFSET condition, which these stores refuse by choice |
| Interactors.WithUserFilter | interactor.go:155-159 | both ways of adding the user filter give the caller's conditions followed by `UserID(uid)` |
| Interactors.UserFilterSelects | interactor.go:155-160 | a membership passes the extended conditions exactly when it is the user's and passes the caller's conditions |
| Interactors.UserFilterRunnable | interactor.go:155-160 | the members table can run the extended conditions exactly when it can run the caller's |
| Interactors.Interactor.GetAccountsIDs | interactor.go:213-219 | the list is `AccountIDsOf` of the members: one id per member, in order, duplicates kept, the i-th being the i-th member's account |
| Interactors.Interactor.GetUsersIDs | interactor.go:204-210 | one id per member, in order: the i-th is the i-th member's user |
| Interactors.SelectedByIDs | interactor.go:160-168 | selecting accounts by the account ids of the user's memberships gives exactly the accounts on which the user has such a membership |
| Interactors.Interactor.GetAccountsListByUserID | interactor.go:154-169 | a store failure gives an error; with both stores up, valid conditions and at least one matching membership, the result is exactly the accounts on which the user has a membership passing the caller's conditions, in account-table order |
| Interactors.LastRoleIsLastMember | interactor.go:187-190 | the map built from the member list holds, for each account, the role of its last member, and holds no key for an account without members |
| Interactors.Interactor.JoinRoles | interactor.go:187-198 | the map-and-append loops compute the join of the account list with the roles |
| Interactors.JoinedMembers | interactor.go:192-198 | an entry is in the join exactly when its account is in the account list and its role is the last role of that account in the member list |
| Interactors.JoinedAccounts | interactor.go:192-198 | the join keeps exactly the accounts that have a member, in the order of the account list |
| Interactors.JoinedKeepsAll | interactor.go:192-198 | when every account has a member, the join has one entry per account, in order |
| Interactors.JoinedByUser | interactor.go:178-198 | every joined entry carries the role of one of the user's matching memberships of that account, and no account on which the user has one is dropped |
| Interactors.Interactor.GetAccountsListWithRoleByUserID | interactor.go:172-201 | the result is the role join of the selected accounts with the user's memberships; each entry's role is that of one of the user's matching memberships; every account on which the user has one appears |
| Interactors.Interactor.HasRole | interactor.go:222-227 | true exactly when the member store's check returns no error, which is when the user holds the role on the account and the store is up |

## Findings

| source | as written | input that shows it | evidently intended | confidence | as-written member | corrected member |
|---|---|---|---|---|---|---|
| conditions.go:200-208 | only the last LIMIT and the last OFFSET fragment go into the text, but every condition's parameters are returned | `conditionsToQuery(Limit(5), Limit(10))` gives ` LIMIT ?` and the two parameters 5 and 10; bound by position, the kept `LIMIT ?` takes 5, and with `Offset(2)` added the text ` LIMIT ? OFFSET ?` with `[5, 10, 2]` runs as LIMIT 5 OFFSET 10 | return only the parameters of the fragments kept, so that every parameter has its placeholder | medium; not executed | Conditions.RepeatedLimitUnbound | Conditions.BoundParamsCount |

`ConditionsToQuery` keeps the code as written and returns every parameter. Its contract also states the placeholder count against `BoundParams`. That is the corrected parameter list: the parameters of the fragments kept. `PlaceholdersMatch` shows the two lists agree when there is at most one LIMIT and one OFFSET. The in-memory stores of this model refuse a list with more of either. That is their own choice: a driver that binds by position may instead run the statement with the wrong values, and nothing fails.

## Left out

- The sort in `conditionsToQuery` is the `bradfitz/slice` library call, and that sort is not stable. `ConditionsToQuery` therefore takes the sorted order as a parameter, required to be a permutation ordered by section. Only grouping by section is proved. The order within a section is not. The reordering of the caller's own slice is not modelled.
- Conditions.UserIDs: the `sqlx.In` expansion is modelled as `col IN (?, ?, ...)` with the ids as parameters. Nothing is claimed for an empty list, where the library call fails and its error is discarded. The model's empty-list fragment is one the stores refuse, so a user with no memberships gets an error from the listings. The contracts promise a result only when a matching membership exists.
- Conditions.AccountIDs: the same applies as for UserIDs.
- Conditions.IDs: the same applies as for UserIDs.
- UUID generation and the clock are not modelled. The interactor's methods take the fresh ids and the current time as parameters.
- `Insert` and `Update` change the caller's `*Account` in place. The model returns the changed account instead, so aliasing of that pointer is not captured.
- The SQL repositories are not part of this model. In their place are in-memory tables. Their `GetList` applies the WHERE filters only. It does not apply ORDER BY, LIMIT or OFFSET, and it returns rows in insertion order. The listing contracts are stated about that.
- Stores.AccountQueryValid, Stores.MemberQueryValid: the refusal of a second LIMIT or OFFSET is a choice of the in-memory stores. A real driver may refuse such a statement, or may bind the values by position and ignore the extra ones, so that a repeated LIMIT silently shifts the LIMIT and OFFSET values. The listing contracts' error for this case is therefore a property of the model's stores, not a promise of the program.
- Store failures are modelled by the `outage` set of each store and a single `StoreError`. Driver error texts are not modelled.
- `CreatedAt` is a `time.Time` in `account.go` and `member.go`. The interactor treats it as an integer epoch, and the model follows the interactor.
- Concurrency: none of the stores' locking or transactional behaviour is modelled.
- `_example/main.go` is not part of this model. It opens a database, creates the schema and prints results.
