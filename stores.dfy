/** In-memory account and member repositories: the two store interfaces the
    interactor depends on, as tables kept in insertion order. A store fails
    an operation when that operation is in its `outage` set, which stands
    for any failure of the underlying database. */
module Stores {
  import opened Conditions
  import opened Entities

  /** The kinds of statement a store issues. */
  datatype Op = OpGet | OpList | OpInsert | OpUpdate | OpDelete

  // ---------------------------------------------------------------------------
  // How a table evaluates the WHERE fragments the condition builder makes

  /** `c` is `column=?` bound to `v`, or `column IN (?, ...)` with `v` among its values. */
  predicate FilterOn(c: Condition, column: string, v: Value) {
    || (c.query == column + "=?" && c.params == [v])
    || (c.query == InQuery(column, |c.params|) && v in c.params)
  }

  predicate AccountMatches(a: Account, c: Condition) {
    || c.section != QsWhere
    || FilterOn(c, "id", StringValue(a.id))
    || FilterOn(c, "name", StringValue(a.name))
    || FilterOn(c, "disabled", BoolValue(a.disabled))
  }

  predicate MemberMatches(m: Member, c: Condition) {
    || c.section != QsWhere
    || FilterOn(c, "id", StringValue(m.id))
    || FilterOn(c, "account_id", StringValue(m.accountID))
    || FilterOn(c, "user_id", StringValue(m.userID))
    || FilterOn(c, "role", StringValue(m.role))
  }

  /** `c` has the shape `column=?` with one value or `column IN (?, ...)`
      with as many placeholders as values. */
  predicate FilterShape(c: Condition, column: string) {
    || (c.query == column + "=?" && |c.params| == 1)
    || (|c.params| > 0 && c.query == InQuery(column, |c.params|))
  }

  /** The accounts table can run `c`: it is not a WHERE fragment, or it
      filters one of the table's columns. Any other WHERE fragment makes
      the statement fail. */
  predicate AccountFilterKnown(c: Condition) {
    || c.section != QsWhere
    || FilterShape(c, "id")
    || FilterShape(c, "name")
    || FilterShape(c, "disabled")
  }

  /** The members table can run `c`, as for accounts. */
  predicate MemberFilterKnown(c: Condition) {
    || c.section != QsWhere
    || FilterShape(c, "id")
    || FilterShape(c, "account_id")
    || FilterShape(c, "user_id")
    || FilterShape(c, "role")
  }

  /** The accounts table can run the statement built from `cs`: every WHERE
      fragment filters one of its columns, and no second LIMIT or OFFSET
      leaves a parameter without its placeholder. Refusing the second LIMIT
      or OFFSET is a choice of this in-memory store: a driver that binds
      the values by position would run the statement with shifted values. */
  predicate AccountQueryValid(cs: seq<Condition>) {
    (forall i :: 0 <= i < |cs| ==> AccountFilterKnown(cs[i])) && SingleLimitOffset(cs)
  }

  /** The members table can run the statement built from `cs`, as for accounts. */
  predicate MemberQueryValid(cs: seq<Condition>) {
    (forall i :: 0 <= i < |cs| ==> MemberFilterKnown(cs[i])) && SingleLimitOffset(cs)
  }

  predicate AccountMatchesAll(a: Account, cs: seq<Condition>) {
    forall i :: 0 <= i < |cs| ==> AccountMatches(a, cs[i])
  }

  predicate MemberMatchesAll(m: Member, cs: seq<Condition>) {
    forall i :: 0 <= i < |cs| ==> MemberMatches(m, cs[i])
  }

  lemma InQueryStart(column: string, n: nat)
    ensures |InQuery(column, n)| > |column| && InQuery(column, n)[..|column|] == column
  {
    assert InQuery(column, n) == column + (" IN (" + Placeholders(n) + ")");
  }

  /** A fragment that does not start with the column's first letter filters
      on some other column. */
  lemma OtherColumn(c: Condition, column: string, v: Value)
    requires |column| > 0 && |c.query| > 0 && c.query[0] != column[0]
    ensures !FilterOn(c, column, v)
  {
    InQueryStart(column, |c.params|);
    assert (column + "=?")[0] == column[0];
    assert InQuery(column, |c.params|)[0] == InQuery(column, |c.params|)[..|column|][0];
  }

  /** Filtering on a column with a single value selects the rows holding that value. */
  lemma SameColumn(c: Condition, column: string, v: Value, w: Value)
    requires c.query == column + "=?" && c.params == [w]
    ensures FilterOn(c, column, v) <==> v == w
  {
  }

  /** A store keeps exactly the members whose user is `uid`. */
  lemma UserIDSelects(m: Member, uid: string)
    ensures MemberFilterKnown(UserID(uid))
    ensures MemberMatches(m, UserID(uid)) <==> m.userID == uid
  {
    var c := UserID(uid);
    OtherColumn(c, "id", StringValue(m.id));
    OtherColumn(c, "account_id", StringValue(m.accountID));
    OtherColumn(c, "role", StringValue(m.role));
    SameColumn(c, "user_id", StringValue(m.userID), StringValue(uid));
  }

  /** A store keeps exactly the members of account `aid`. */
  lemma AccountIDSelects(m: Member, aid: string)
    ensures MemberMatches(m, AccountID(aid)) <==> m.accountID == aid
  {
    var c := AccountID(aid);
    OtherColumn(c, "id", StringValue(m.id));
    OtherColumn(c, "user_id", StringValue(m.userID));
    OtherColumn(c, "role", StringValue(m.role));
    SameColumn(c, "account_id", StringValue(m.accountID), StringValue(aid));
  }

  /** A store keeps exactly the members holding `role`. */
  lemma RoleSelects(m: Member, role: string)
    ensures MemberMatches(m, Role(role)) <==> m.role == role
  {
    var c := Role(role);
    OtherColumn(c, "id", StringValue(m.id));
    OtherColumn(c, "account_id", StringValue(m.accountID));
    OtherColumn(c, "user_id", StringValue(m.userID));
    SameColumn(c, "role", StringValue(m.role), StringValue(role));
  }

  /** A store keeps exactly the accounts whose disabled flag is `v`. */
  lemma DisabledSelects(a: Account, v: bool)
    ensures AccountMatches(a, Disabled(v)) <==> a.disabled == v
  {
    var c := Disabled(v);
    OtherColumn(c, "id", StringValue(a.id));
    OtherColumn(c, "name", StringValue(a.name));
    SameColumn(c, "disabled", BoolValue(a.disabled), BoolValue(v));
  }

  /** With the IN expansion, a store keeps exactly the rows whose column
      value is one of the listed ones. */
  lemma InSelects(c: Condition, column: string, ids: seq<string>, x: string)
    requires |ids| > 0 && c.query == InQuery(column, |ids|) && c.params == StringValues(ids)
    ensures FilterOn(c, column, StringValue(x)) <==> x in ids
  {
    if FilterOn(c, column, StringValue(x)) {
      var k :| 0 <= k < |c.params| && c.params[k] == StringValue(x);
      assert ids[k] == x;
    }
    if x in ids {
      var k :| 0 <= k < |ids| && ids[k] == x;
      assert c.params[k] == StringValue(x);
    }
  }

  /** The accounts table can run the single IN filter over a non-empty list. */
  lemma IDsRunnable(ids: seq<string>)
    requires |ids| > 0
    ensures AccountQueryValid([IDs(ids)])
  {
    var c := IDs(ids);
    assert FilterShape(c, "id");
    assert [c][0] == c && [c] == [] + [c];
    SectionSnoc([], c, QsLimit);
    SectionSnoc([], c, QsOffset);
  }

  /** `IDs(ids)` keeps exactly the accounts whose id is listed. */
  lemma IDsSelectAccounts(a: Account, ids: seq<string>)
    requires |ids| > 0
    ensures AccountFilterKnown(IDs(ids))
    ensures AccountMatches(a, IDs(ids)) <==> a.id in ids
  {
    var c := IDs(ids);
    InQueryStart("id", |ids|);
    assert c.query[0] == 'i';
    OtherColumn(c, "name", StringValue(a.name));
    OtherColumn(c, "disabled", BoolValue(a.disabled));
    InSelects(c, "id", ids, a.id);
  }

  /** `UserIDs(ids)` keeps exactly the members whose user is listed. */
  lemma UserIDsSelectMembers(m: Member, ids: seq<string>)
    requires |ids| > 0
    ensures MemberMatches(m, UserIDs(ids)) <==> m.userID in ids
  {
    var c := UserIDs(ids);
    InQueryStart("user_id", |ids|);
    assert c.query[0] == 'u';
    OtherColumn(c, "id", StringValue(m.id));
    OtherColumn(c, "account_id", StringValue(m.accountID));
    OtherColumn(c, "role", StringValue(m.role));
    InSelects(c, "user_id", ids, m.userID);
  }

  /** `AccountIDs(ids)` keeps exactly the members of the listed accounts. */
  lemma AccountIDsSelectMembers(m: Member, ids: seq<string>)
    requires |ids| > 0
    ensures MemberMatches(m, AccountIDs(ids)) <==> m.accountID in ids
  {
    var c := AccountIDs(ids);
    InQueryStart("account_id", |ids|);
    assert c.query[0] == 'a';
    OtherColumn(c, "id", StringValue(m.id));
    OtherColumn(c, "user_id", StringValue(m.userID));
    OtherColumn(c, "role", StringValue(m.role));
    InSelects(c, "account_id", ids, m.accountID);
  }

  // ---------------------------------------------------------------------------
  // The accounts table

  predicate UniqueAccountIDs(rows: seq<Account>) {
    forall i, j :: 0 <= i < j < |rows| ==> rows[i].id != rows[j].id
  }

  predicate HasAccount(rows: seq<Account>, id: string) {
    exists a :: a in rows && a.id == id
  }

  /** The row with id `id`, if any. */
  function FindAccount(rows: seq<Account>, id: string): (r: Option<Account>)
    ensures r.Some? ==> r.value in rows && r.value.id == id
    ensures r.None? ==> !HasAccount(rows, id)
    decreases |rows|
  {
    if |rows| == 0 then None
    else if rows[|rows| - 1].id == id then Some(rows[|rows| - 1])
    else FindAccount(rows[..|rows| - 1], id)
  }

  /** The rows matching every condition, in table order. */
  function SelectAccounts(rows: seq<Account>, cs: seq<Condition>): (r: seq<Account>)
    ensures forall a :: a in r <==> a in rows && AccountMatchesAll(a, cs)
    decreases |rows|
  {
    if |rows| == 0 then []
    else
      var init, last := rows[..|rows| - 1], rows[|rows| - 1];
      assert rows == init + [last];
      SelectAccounts(init, cs) + (if AccountMatchesAll(last, cs) then [last] else [])
  }

  /** The table without the row whose id is `id`. */
  function DropAccount(rows: seq<Account>, id: string): (r: seq<Account>)
    ensures forall a :: a in r <==> a in rows && a.id != id
    decreases |rows|
  {
    if |rows| == 0 then []
    else
      var init, last := rows[..|rows| - 1], rows[|rows| - 1];
      assert rows == init + [last];
      DropAccount(init, id) + (if last.id == id then [] else [last])
  }

  /** The table after a full-row update keyed by `a.id`: name, disabled flag
      and update time are taken from `a`, id and creation time are kept. */
  function UpdateAccountRow(rows: seq<Account>, a: Account): (r: seq<Account>)
    ensures |r| == |rows|
    ensures forall i :: 0 <= i < |rows| ==> r[i].id == rows[i].id && r[i].createdAt == rows[i].createdAt
    ensures forall i :: 0 <= i < |rows| && rows[i].id == a.id ==>
              r[i].name == a.name && r[i].disabled == a.disabled && r[i].updatedAt == a.updatedAt
    ensures forall i :: 0 <= i < |rows| && rows[i].id != a.id ==> r[i] == rows[i]
  {
    seq(|rows|, i requires 0 <= i < |rows| =>
      if rows[i].id == a.id then rows[i].(name := a.name, disabled := a.disabled, updatedAt := a.updatedAt)
      else rows[i])
  }

  lemma {:induction false} DropAccountUnique(rows: seq<Account>, id: string)
    requires UniqueAccountIDs(rows)
    ensures UniqueAccountIDs(DropAccount(rows, id))
    decreases |rows|
  {
    if |rows| > 0 {
      var init, last := rows[..|rows| - 1], rows[|rows| - 1];
      assert rows == init + [last];
      DropAccountUnique(init, id);
      var r := DropAccount(init, id);
      forall a | a in r ensures a.id != last.id {
        var k :| 0 <= k < |init| && init[k] == a;
        assert rows[k] == a;
      }
    }
  }

  lemma AppendAccountUnique(rows: seq<Account>, a: Account)
    requires UniqueAccountIDs(rows) && !HasAccount(rows, a.id)
    ensures UniqueAccountIDs(rows + [a])
  {
    forall i | 0 <= i < |rows| ensures rows[i].id != a.id {
      assert rows[i] in rows;
    }
  }

  /** Dropping a row just appended gives the table back. */
  lemma {:induction false} DropAppendedAccount(rows: seq<Account>, a: Account)
    requires !HasAccount(rows, a.id)
    ensures DropAccount(rows + [a], a.id) == rows
  {
    assert (rows + [a])[..|rows|] == rows;
    DropAbsentAccount(rows, a.id);
  }

  lemma {:induction false} DropAbsentAccount(rows: seq<Account>, id: string)
    requires !HasAccount(rows, id)
    ensures DropAccount(rows, id) == rows
    decreases |rows|
  {
    if |rows| > 0 {
      var init := rows[..|rows| - 1];
      assert rows == init + [rows[|rows| - 1]];
      assert rows[|rows| - 1] in rows;
      DropAbsentAccount(init, id);
    }
  }

  /** A row just appended is found by its id. */
  lemma AppendedAccountFound(rows: seq<Account>, a: Account)
    ensures HasAccount(rows + [a], a.id)
  {
    assert (rows + [a])[|rows|] == a;
  }

  class AccountStore {
    var rows: seq<Account>
    var outage: set<Op>

    ghost predicate Valid()
      reads this
    {
      UniqueAccountIDs(rows)
    }

    constructor ()
      ensures Valid() && rows == [] && outage == {}
    {
      rows, outage := [], {};
    }

    /** The account with id `id`; NotFound when there is none. */
    method GetByID(id: string) returns (r: Result<Account>)
      ensures OpGet in outage ==> r == Err(StoreError)
      ensures OpGet !in outage && HasAccount(rows, id) ==> r.Ok? && r.value in rows && r.value.id == id
      ensures OpGet !in outage && !HasAccount(rows, id) ==> r == Err(NotFound)
    {
      if OpGet in outage {
        return Err(StoreError);
      }
      var found := FindAccount(rows, id);
      if found.None? {
        return Err(NotFound);
      }
      return Ok(found.value);
    }

    /** The accounts matching every condition, in table order; a WHERE
        fragment the table cannot run fails the statement. */
    method GetList(cs: seq<Condition>) returns (r: Result<seq<Account>>)
      ensures r.Err? <==> OpList in outage || !AccountQueryValid(cs)
      ensures r.Err? ==> r.error == StoreError
      ensures r.Ok? ==> forall a :: a in r.value <==> a in rows && AccountMatchesAll(a, cs)
      ensures r.Ok? ==> r.value == SelectAccounts(rows, cs)
    {
      if OpList in outage || !AccountQueryValid(cs) {
        return Err(StoreError);
      }
      return Ok(SelectAccounts(rows, cs));
    }

    /** Adds a row; the id is the primary key. */
    method Insert(a: Account) returns (err: Option<Error>)
      requires Valid()
      modifies this`rows
      ensures Valid()
      ensures err == if OpInsert in outage || HasAccount(old(rows), a.id) then Some(StoreError) else None
      ensures rows == if err.None? then old(rows) + [a] else old(rows)
    {
      if OpInsert in outage || HasAccount(rows, a.id) {
        return Some(StoreError);
      }
      AppendAccountUnique(rows, a);
      rows := rows + [a];
      return None;
    }

    /** Overwrites name, disabled flag and update time of the row with `a`'s id. */
    method Update(a: Account) returns (err: Option<Error>)
      requires Valid()
      modifies this`rows
      ensures Valid()
      ensures err == if OpUpdate in outage then Some(StoreError)
                     else if !HasAccount(old(rows), a.id) then Some(NotFound)
                     else None
      ensures rows == if err.None? then UpdateAccountRow(old(rows), a) else old(rows)
    {
      if OpUpdate in outage {
        return Some(StoreError);
      }
      if !HasAccount(rows, a.id) {
        return Some(NotFound);
      }
      rows := UpdateAccountRow(rows, a);
      return None;
    }

    /** Removes the row with id `id`. */
    method Delete(id: string) returns (err: Option<Error>)
      requires Valid()
      modifies this`rows
      ensures Valid()
      ensures err == if OpDelete in outage then Some(StoreError)
                     else if !HasAccount(old(rows), id) then Some(NotFound)
                     else None
      ensures rows == if err.None? then DropAccount(old(rows), id) else old(rows)
    {
      if OpDelete in outage {
        return Some(StoreError);
      }
      if !HasAccount(rows, id) {
        return Some(NotFound);
      }
      DropAccountUnique(rows, id);
      rows := DropAccount(rows, id);
      return None;
    }
  }

  // ---------------------------------------------------------------------------
  // The members table

  /** The column a bulk delete of members is keyed by. */
  datatype MemberKey = ByID | ByAccountID | ByUserID

  function KeyOf(m: Member, key: MemberKey): string {
    match key
    case ByID => m.id
    case ByAccountID => m.accountID
    case ByUserID => m.userID
  }

  predicate UniqueMemberIDs(rows: seq<Member>) {
    forall i, j :: 0 <= i < j < |rows| ==> rows[i].id != rows[j].id
  }

  predicate HasMember(rows: seq<Member>, id: string) {
    exists m :: m in rows && m.id == id
  }

  /** Some row gives user `uid` the role `role` on account `aid`. */
  predicate HasMembership(rows: seq<Member>, aid: string, uid: string, role: string) {
    exists m :: m in rows && m.accountID == aid && m.userID == uid && m.role == role
  }

  /** The row with id `id`, if any. */
  function FindMember(rows: seq<Member>, id: string): (r: Option<Member>)
    ensures r.Some? ==> r.value in rows && r.value.id == id
    ensures r.None? ==> !HasMember(rows, id)
    decreases |rows|
  {
    if |rows| == 0 then None
    else if rows[|rows| - 1].id == id then Some(rows[|rows| - 1])
    else FindMember(rows[..|rows| - 1], id)
  }

  /** The rows matching every condition, in table order. */
  function SelectMembers(rows: seq<Member>, cs: seq<Condition>): (r: seq<Member>)
    ensures forall m :: m in r <==> m in rows && MemberMatchesAll(m, cs)
    decreases |rows|
  {
    if |rows| == 0 then []
    else
      var init, last := rows[..|rows| - 1], rows[|rows| - 1];
      assert rows == init + [last];
      SelectMembers(init, cs) + (if MemberMatchesAll(last, cs) then [last] else [])
  }

  /** The table without the rows whose `key` column is `v`. */
  function DropMembers(rows: seq<Member>, key: MemberKey, v: string): (r: seq<Member>)
    ensures forall m :: m in r <==> m in rows && KeyOf(m, key) != v
    decreases |rows|
  {
    if |rows| == 0 then []
    else
      var init, last := rows[..|rows| - 1], rows[|rows| - 1];
      assert rows == init + [last];
      DropMembers(init, key, v) + (if KeyOf(last, key) == v then [] else [last])
  }

  /** The table after the role of the row with `m`'s id is set to `m.role`. */
  function UpdateMemberRole(rows: seq<Member>, m: Member): (r: seq<Member>)
    ensures |r| == |rows|
    ensures forall i :: 0 <= i < |rows| ==> r[i] == (if rows[i].id == m.id then rows[i].(role := m.role) else rows[i])
  {
    seq(|rows|, i requires 0 <= i < |rows| => if rows[i].id == m.id then rows[i].(role := m.role) else rows[i])
  }

  lemma {:induction false} DropMembersUnique(rows: seq<Member>, key: MemberKey, v: string)
    requires UniqueMemberIDs(rows)
    ensures UniqueMemberIDs(DropMembers(rows, key, v))
    decreases |rows|
  {
    if |rows| > 0 {
      var init, last := rows[..|rows| - 1], rows[|rows| - 1];
      assert rows == init + [last];
      DropMembersUnique(init, key, v);
      var r := DropMembers(init, key, v);
      forall m | m in r ensures m.id != last.id {
        var k :| 0 <= k < |init| && init[k] == m;
        assert rows[k] == m;
      }
    }
  }

  lemma AppendMemberUnique(rows: seq<Member>, m: Member)
    requires UniqueMemberIDs(rows) && !HasMember(rows, m.id)
    ensures UniqueMemberIDs(rows + [m])
  {
    forall i | 0 <= i < |rows| ensures rows[i].id != m.id {
      assert rows[i] in rows;
    }
  }

  /** A membership just appended is found by its account, user and role. */
  lemma AppendedMembershipFound(rows: seq<Member>, m: Member)
    ensures HasMembership(rows + [m], m.accountID, m.userID, m.role)
  {
    assert (rows + [m])[|rows|] == m;
  }

  class MemberStore {
    var rows: seq<Member>
    var outage: set<Op>

    ghost predicate Valid()
      reads this
    {
      UniqueMemberIDs(rows)
    }

    constructor ()
      ensures Valid() && rows == [] && outage == {}
    {
      rows, outage := [], {};
    }

    /** The member with id `id`; NotFound when there is none. */
    method GetByID(id: string) returns (r: Result<Member>)
      ensures OpGet in outage ==> r == Err(StoreError)
      ensures OpGet !in outage && HasMember(rows, id) ==> r.Ok? && r.value in rows && r.value.id == id
      ensures OpGet !in outage && !HasMember(rows, id) ==> r == Err(NotFound)
    {
      if OpGet in outage {
        return Err(StoreError);
      }
      var found := FindMember(rows, id);
      if found.None? {
        return Err(NotFound);
      }
      return Ok(found.value);
    }

    /** Succeeds when user `uid` holds `role` on account `aid`; NotFound otherwise. */
    method HasRole(aid: string, uid: string, role: string) returns (err: Option<Error>)
      ensures err == if OpGet in outage then Some(StoreError)
                     else if HasMembership(rows, aid, uid, role) then None
                     else Some(NotFound)
    {
      if OpGet in outage {
        return Some(StoreError);
      }
      if exists m | m in rows :: m.accountID == aid && m.userID == uid && m.role == role {
        return None;
      }
      return Some(NotFound);
    }

    /** The members matching every condition, in table order; a WHERE
        fragment the table cannot run fails the statement. */
    method GetList(cs: seq<Condition>) returns (r: Result<seq<Member>>)
      ensures r.Err? <==> OpList in outage || !MemberQueryValid(cs)
      ensures r.Err? ==> r.error == StoreError
      ensures r.Ok? ==> forall m :: m in r.value <==> m in rows && MemberMatchesAll(m, cs)
      ensures r.Ok? ==> r.value == SelectMembers(rows, cs)
    {
      if OpList in outage || !MemberQueryValid(cs) {
        return Err(StoreError);
      }
      return Ok(SelectMembers(rows, cs));
    }

    /** Adds a row; the id is the primary key. */
    method Insert(m: Member) returns (err: Option<Error>)
      requires Valid()
      modifies this`rows
      ensures Valid()
      ensures err == if OpInsert in outage || HasMember(old(rows), m.id) then Some(StoreError) else None
      ensures rows == if err.None? then old(rows) + [m] else old(rows)
    {
      if OpInsert in outage || HasMember(rows, m.id) {
        return Some(StoreError);
      }
      AppendMemberUnique(rows, m);
      rows := rows + [m];
      return None;
    }

    /** Changes the role of the row with `m`'s id. */
    method Update(m: Member) returns (err: Option<Error>)
      requires Valid()
      modifies this`rows
      ensures Valid()
      ensures err == if OpUpdate in outage then Some(StoreError)
                     else if !HasMember(old(rows), m.id) then Some(NotFound)
                     else None
      ensures rows == if err.None? then UpdateMemberRole(old(rows), m) else old(rows)
    {
      if OpUpdate in outage {
        return Some(StoreError);
      }
      if !HasMember(rows, m.id) {
        return Some(NotFound);
      }
      rows := UpdateMemberRole(rows, m);
      return None;
    }

    /** Removes the row with id `id`. */
    method Delete(id: string) returns (err: Option<Error>)
      requires Valid()
      modifies this`rows
      ensures Valid()
      ensures err == if OpDelete in outage then Some(StoreError)
                     else if !HasMember(old(rows), id) then Some(NotFound)
                     else None
      ensures rows == if err.None? then DropMembers(old(rows), ByID, id) else old(rows)
    {
      if OpDelete in outage {
        return Some(StoreError);
      }
      if !HasMember(rows, id) {
        return Some(NotFound);
      }
      DropMembersUnique(rows, ByID, id);
      rows := DropMembers(rows, ByID, id);
      return None;
    }

    /** Removes every member of account `aid`. */
    method DeleteByAccountID(aid: string) returns (err: Option<Error>)
      requires Valid()
      modifies this`rows
      ensures Valid()
      ensures err == if OpDelete in outage then Some(StoreError) else None
      ensures rows == if err.None? then DropMembers(old(rows), ByAccountID, aid) else old(rows)
    {
      if OpDelete in outage {
        return Some(StoreError);
      }
      DropMembersUnique(rows, ByAccountID, aid);
      rows := DropMembers(rows, ByAccountID, aid);
      return None;
    }

    /** Removes every membership of user `uid`. */
    method DeleteByUserID(uid: string) returns (err: Option<Error>)
      requires Valid()
      modifies this`rows
      ensures Valid()
      ensures err == if OpDelete in outage then Some(StoreError) else None
      ensures rows == if err.None? then DropMembers(old(rows), ByUserID, uid) else old(rows)
    {
      if OpDelete in outage {
        return Some(StoreError);
      }
      DropMembersUnique(rows, ByUserID, uid);
      rows := DropMembers(rows, ByUserID, uid);
      return None;
    }
  }
}
