/** The account interactor: the use cases built on an account store and a
    member store. */
module Interactors {
  import opened Conditions
  import opened Entities
  import opened Stores

  /** An account together with the role the listing user holds on it. */
  datatype AccountWithRole = AccountWithRole(account: Account, role: string)

  // ---------------------------------------------------------------------------
  // Specification of the listings

  /** The caller's conditions with the filter on user `uid` added last;
      both ways the source builds the list (appending to a non-empty list,
      or starting a new one) give this. */
  function WithUserFilter(cs: seq<Condition>, uid: string): (r: seq<Condition>)
    ensures |r| == |cs| + 1 && r[..|cs|] == cs
    ensures r[|cs|] == UserID(uid)
  {
    if |cs| > 0 then cs + [UserID(uid)] else [UserID(uid)]
  }

  /** A member passes the caller's conditions plus the user filter exactly
      when it belongs to `uid` and passes the caller's conditions. */
  lemma UserFilterSelects(m: Member, cs: seq<Condition>, uid: string)
    ensures MemberMatchesAll(m, WithUserFilter(cs, uid)) <==> m.userID == uid && MemberMatchesAll(m, cs)
  {
    var r := WithUserFilter(cs, uid);
    UserIDSelects(m, uid);
    assert forall i :: 0 <= i < |cs| ==> r[i] == cs[i];
  }

  /** The user filter is a WHERE fragment the members table runs, so the
      extended conditions can be run exactly when the caller's can. */
  lemma UserFilterRunnable(cs: seq<Condition>, uid: string)
    ensures MemberQueryValid(WithUserFilter(cs, uid)) <==> MemberQueryValid(cs)
  {
  }

  /** The role of the last member of account `aid` in `ml`; None when no
      member of `ml` belongs to `aid`. */
  function LastRole(ml: seq<Member>, aid: string): Option<string>
    decreases |ml|
  {
    if |ml| == 0 then None
    else if ml[|ml| - 1].accountID == aid then Some(ml[|ml| - 1].role)
    else LastRole(ml[..|ml| - 1], aid)
  }

  /** LastRole picks the role of the last member of the account, and is
      absent exactly when the account has no member in the list. */
  lemma {:induction false} LastRoleIsLastMember(ml: seq<Member>, aid: string)
    ensures LastRole(ml, aid).None? <==> forall i :: 0 <= i < |ml| ==> ml[i].accountID != aid
    ensures LastRole(ml, aid).Some? ==>
              exists i :: 0 <= i < |ml| && ml[i].accountID == aid && ml[i].role == LastRole(ml, aid).value
                          && forall j :: i < j < |ml| ==> ml[j].accountID != aid
    decreases |ml|
  {
    if |ml| > 0 {
      var n := |ml| - 1;
      var init := ml[..n];
      if ml[n].accountID != aid {
        LastRoleIsLastMember(init, aid);
        assert forall i :: 0 <= i < n ==> init[i] == ml[i];
        if LastRole(ml, aid).Some? {
          var i :| 0 <= i < |init| && init[i].accountID == aid && init[i].role == LastRole(init, aid).value
                   && forall j :: i < j < |init| ==> init[j].accountID != aid;
          assert forall j :: i < j < |ml| ==> ml[j].accountID != aid;
        }
      }
    }
  }

  /** The accounts of `al` that have a member in `ml`, in the order of `al`,
      each with the role of its last member in `ml`. */
  function Joined(al: seq<Account>, ml: seq<Member>): seq<AccountWithRole>
    decreases |al|
  {
    if |al| == 0 then []
    else
      var a := al[|al| - 1];
      Joined(al[..|al| - 1], ml)
      + (match LastRole(ml, a.id)
         case Some(r) => [AccountWithRole(a, r)]
         case None => [])
  }

  /** An entry is in the join exactly when its account is in `al` and its
      role is the account's last role in `ml`. */
  lemma {:induction false} JoinedMembers(al: seq<Account>, ml: seq<Member>, x: AccountWithRole)
    ensures x in Joined(al, ml) <==> x.account in al && LastRole(ml, x.account.id) == Some(x.role)
    decreases |al|
  {
    if |al| > 0 {
      var init := al[..|al| - 1];
      JoinedMembers(init, ml, x);
      assert al == init + [al[|al| - 1]];
    }
  }

  /** Some member of `ml` belongs to account `aid`. */
  predicate HasMemberOf(ml: seq<Member>, aid: string) {
    exists m :: m in ml && m.accountID == aid
  }

  /** When every account of `al` has a member in `ml`, the join drops
      nothing and keeps the order of `al`. */
  lemma {:induction false} JoinedKeepsAll(al: seq<Account>, ml: seq<Member>)
    requires forall i :: 0 <= i < |al| ==> HasMemberOf(ml, al[i].id)
    ensures |Joined(al, ml)| == |al|
    ensures forall i :: 0 <= i < |al| ==> Joined(al, ml)[i].account == al[i]
    decreases |al|
  {
    if |al| > 0 {
      var n := |al| - 1;
      var init := al[..n];
      assert forall i :: 0 <= i < n ==> init[i] == al[i];
      JoinedKeepsAll(init, ml);
      var m :| m in ml && m.accountID == al[n].id;
      LastRoleIsLastMember(ml, al[n].id);
      var k :| 0 <= k < |ml| && ml[k] == m;
      var j := Joined(init, ml);
      var entry := AccountWithRole(al[n], LastRole(ml, al[n].id).value);
      assert Joined(al, ml) == j + [entry];
      forall i | 0 <= i < |al|
        ensures Joined(al, ml)[i].account == al[i]
      {
        if i < n {
          assert (j + [entry])[i] == j[i];
        }
      }
    }
  }

  /** The accounts of a join, in order. */
  function AccountsOf(ar: seq<AccountWithRole>): (r: seq<Account>)
    ensures |r| == |ar| && forall i :: 0 <= i < |ar| ==> r[i] == ar[i].account
  {
    seq(|ar|, i requires 0 <= i < |ar| => ar[i].account)
  }

  /** The accounts of `al` that have some member in `ml`, in the order of `al`. */
  function WithMembers(al: seq<Account>, ml: seq<Member>): seq<Account>
    decreases |al|
  {
    if |al| == 0 then []
    else
      var a := al[|al| - 1];
      WithMembers(al[..|al| - 1], ml) + (if HasMemberOf(ml, a.id) then [a] else [])
  }

  /** The join keeps exactly the accounts of `al` that have a member in
      `ml`, in the order of `al`. */
  lemma {:induction false} JoinedAccounts(al: seq<Account>, ml: seq<Member>)
    ensures AccountsOf(Joined(al, ml)) == WithMembers(al, ml)
    decreases |al|
  {
    if |al| > 0 {
      var n := |al| - 1;
      var a := al[n];
      var init := al[..n];
      JoinedAccounts(init, ml);
      LastRoleIsLastMember(ml, a.id);
      if HasMemberOf(ml, a.id) {
        var m :| m in ml && m.accountID == a.id;
        var k :| 0 <= k < |ml| && ml[k] == m;
      } else {
        forall i | 0 <= i < |ml| ensures ml[i].accountID != a.id {
          assert ml[i] in ml;
        }
      }
      var tail := match LastRole(ml, a.id)
        case Some(r) => [AccountWithRole(a, r)]
        case None => [];
      assert Joined(al, ml) == Joined(init, ml) + tail;
      assert AccountsOf(Joined(init, ml) + tail) == AccountsOf(Joined(init, ml)) + AccountsOf(tail);
    }
  }

  // ---------------------------------------------------------------------------
  // The interactor

  class Interactor {
    const accRepo: AccountStore
    const membRepo: MemberStore

    ghost predicate Valid()
      reads this, accRepo, membRepo
    {
      accRepo.Valid() && membRepo.Valid()
    }

    constructor (ar: AccountStore, mr: MemberStore)
      ensures accRepo == ar && membRepo == mr
    {
      accRepo, membRepo := ar, mr;
    }

    /** The account with id `id`, as the account store returns it. */
    method GetByID(id: string) returns (r: Result<Account>)
      ensures OpGet in accRepo.outage ==> r == Err(StoreError)
      ensures OpGet !in accRepo.outage && HasAccount(accRepo.rows, id) ==> r.Ok? && r.value in accRepo.rows && r.value.id == id
      ensures OpGet !in accRepo.outage && !HasAccount(accRepo.rows, id) ==> r == Err(NotFound)
    {
      r := accRepo.GetByID(id);
    }

    /** The accounts matching every condition, as the account store returns them. */
    method GetList(cs: seq<Condition>) returns (r: Result<seq<Account>>)
      ensures r.Err? <==> OpList in accRepo.outage || !AccountQueryValid(cs)
      ensures r.Err? ==> r.error == StoreError
      ensures r.Ok? ==> r.value == SelectAccounts(accRepo.rows, cs)
      ensures r.Ok? ==> forall a :: a in r.value <==> a in accRepo.rows && AccountMatchesAll(a, cs)
    {
      r := accRepo.GetList(cs);
    }

    /** Creates an account owned by `uid`. A missing id and creation time
        are filled in with `newID` and `now` before anything is checked, and
        the returned account carries them whatever the outcome. The owner
        membership gets id `memberID` and creation time `memberNow`. When
        that membership cannot be stored, the account is deleted again and
        the membership's error returned. */
    method Insert(a: Account, uid: string, newID: string, now: int, memberID: string, memberNow: int)
      returns (saved: Account, err: Option<Error>)
      requires Valid()
      modifies accRepo`rows, membRepo`rows
      ensures Valid()
      ensures saved == a.(id := if a.id == "" then newID else a.id,
                          createdAt := if a.createdAt == 0 then now else a.createdAt)
      ensures a.name == "" ==> err == Some(NameMissed)
      ensures a.name != "" && uid == "" ==> err == Some(OwnerIDMissed)
      ensures (a.name == "" || uid == "") ==>
                accRepo.rows == old(accRepo.rows) && membRepo.rows == old(membRepo.rows)
      ensures a.name != "" && uid != "" && (OpInsert in accRepo.outage || HasAccount(old(accRepo.rows), saved.id)) ==>
                err == Some(StoreError) && accRepo.rows == old(accRepo.rows) && membRepo.rows == old(membRepo.rows)
      ensures a.name != "" && uid != "" && OpInsert !in accRepo.outage && !HasAccount(old(accRepo.rows), saved.id) ==>
                var owner := Member(memberID, saved.id, uid, RoleOwner, memberNow);
                if OpInsert in membRepo.outage || HasMember(old(membRepo.rows), memberID) then
                  err == Some(StoreError) && membRepo.rows == old(membRepo.rows)
                  && accRepo.rows == (if OpDelete in accRepo.outage then old(accRepo.rows) + [saved] else old(accRepo.rows))
                else
                  err == None && accRepo.rows == old(accRepo.rows) + [saved] && membRepo.rows == old(membRepo.rows) + [owner]
      ensures err.None? ==> HasAccount(accRepo.rows, saved.id) && HasMembership(membRepo.rows, saved.id, uid, RoleOwner)
    {
      saved := a;
      if saved.id == "" {
        saved := saved.(id := newID);
      }
      if saved.createdAt == 0 {
        saved := saved.(createdAt := now);
      }
      if saved.name == "" {
        return saved, Some(NameMissed);
      }
      if uid == "" {
        return saved, Some(OwnerIDMissed);
      }
      err := accRepo.Insert(saved);
      if err.Some? {
        return;
      }
      var owner := Member(memberID, saved.id, uid, RoleOwner, memberNow);
      err := membRepo.Insert(owner);
      AppendedAccountFound(old(accRepo.rows), saved);
      if err.Some? {
        var _ := accRepo.Delete(saved.id);
        if OpDelete !in accRepo.outage {
          DropAppendedAccount(old(accRepo.rows), saved);
        }
        return;
      }
      AppendedMembershipFound(old(membRepo.rows), owner);
    }

    /** Saves changes to an existing account. An account without id is
        refused; a missing update time is filled in with `now` before the
        name is checked, and the returned account carries it. */
    method Update(a: Account, now: int) returns (saved: Account, err: Option<Error>)
      requires Valid()
      modifies accRepo`rows
      ensures Valid()
      ensures a.id == "" ==> saved == a && err == Some(NotExistedAccount)
      ensures a.id != "" ==> saved == a.(updatedAt := if a.updatedAt.None? then Some(now) else a.updatedAt)
      ensures a.id != "" && a.name == "" ==> err == Some(NameMissed)
      ensures (a.id == "" || a.name == "") ==> accRepo.rows == old(accRepo.rows)
      ensures a.id != "" && a.name != "" ==>
                err == (if OpUpdate in accRepo.outage then Some(StoreError)
                        else if !HasAccount(old(accRepo.rows), a.id) then Some(NotFound)
                        else None)
                && accRepo.rows == (if err.None? then UpdateAccountRow(old(accRepo.rows), saved) else old(accRepo.rows))
    {
      saved := a;
      if saved.id == "" {
        return saved, Some(NotExistedAccount);
      }
      if saved.updatedAt.None? {
        saved := saved.(updatedAt := Some(now));
      }
      if saved.name == "" {
        return saved, Some(NameMissed);
      }
      err := accRepo.Update(saved);
    }

    /** Deletes an account, then every membership of it. The memberships
        stay when the account could not be deleted. */
    method Delete(id: string) returns (err: Option<Error>)
      requires Valid()
      modifies accRepo`rows, membRepo`rows
      ensures Valid()
      ensures OpDelete in accRepo.outage ==>
                err == Some(StoreError) && accRepo.rows == old(accRepo.rows) && membRepo.rows == old(membRepo.rows)
      ensures OpDelete !in accRepo.outage && !HasAccount(old(accRepo.rows), id) ==>
                err == Some(NotFound) && accRepo.rows == old(accRepo.rows) && membRepo.rows == old(membRepo.rows)
      ensures OpDelete !in accRepo.outage && HasAccount(old(accRepo.rows), id) ==>
                accRepo.rows == DropAccount(old(accRepo.rows), id)
                && if OpDelete in membRepo.outage then err == Some(StoreError) && membRepo.rows == old(membRepo.rows)
                   else err == None && membRepo.rows == DropMembers(old(membRepo.rows), ByAccountID, id)
      ensures err.None? ==> !HasAccount(accRepo.rows, id) && forall m :: m in membRepo.rows ==> m.accountID != id
    {
      err := accRepo.Delete(id);
      if err.Some? {
        return;
      }
      err := membRepo.DeleteByAccountID(id);
      if err.Some? {
        return;
      }
      return None;
    }

    /** Adds user `uid` to account `aid` with `role`, as a new membership
        with id `memberID` created at `now`. */
    method AddMember(aid: string, uid: string, role: string, memberID: string, now: int) returns (err: Option<Error>)
      requires Valid()
      modifies membRepo`rows
      ensures Valid()
      ensures err == if OpInsert in membRepo.outage || HasMember(old(membRepo.rows), memberID) then Some(StoreError) else None
      ensures membRepo.rows == if err.None? then old(membRepo.rows) + [Member(memberID, aid, uid, role, now)] else old(membRepo.rows)
      ensures err.None? ==> HasMembership(membRepo.rows, aid, uid, role)
    {
      err := membRepo.Insert(Member(memberID, aid, uid, role, now));
      AppendedMembershipFound(old(membRepo.rows), Member(memberID, aid, uid, role, now));
    }

    /** Removes the membership with id `mid`. */
    method DeleteMemberByID(mid: string) returns (err: Option<Error>)
      requires Valid()
      modifies membRepo`rows
      ensures Valid()
      ensures err == if OpDelete in membRepo.outage then Some(StoreError)
                     else if !HasMember(old(membRepo.rows), mid) then Some(NotFound)
                     else None
      ensures membRepo.rows == if err.None? then DropMembers(old(membRepo.rows), ByID, mid) else old(membRepo.rows)
    {
      err := membRepo.Delete(mid);
    }

    /** Removes every membership of account `aid`. */
    method DeleteMembersByAccountID(aid: string) returns (err: Option<Error>)
      requires Valid()
      modifies membRepo`rows
      ensures Valid()
      ensures err == if OpDelete in membRepo.outage then Some(StoreError) else None
      ensures membRepo.rows == if err.None? then DropMembers(old(membRepo.rows), ByAccountID, aid) else old(membRepo.rows)
    {
      err := membRepo.DeleteByAccountID(aid);
    }

    /** Removes every membership of user `uid`. */
    method DeleteMembersByUserID(uid: string) returns (err: Option<Error>)
      requires Valid()
      modifies membRepo`rows
      ensures Valid()
      ensures err == if OpDelete in membRepo.outage then Some(StoreError) else None
      ensures membRepo.rows == if err.None? then DropMembers(old(membRepo.rows), ByUserID, uid) else old(membRepo.rows)
    {
      err := membRepo.DeleteByUserID(uid);
    }

    /** The memberships matching every condition; nothing but the error
        when the member store fails. */
    method GetMembersList(cs: seq<Condition>) returns (r: Result<seq<Member>>)
      ensures r.Err? <==> OpList in membRepo.outage || !MemberQueryValid(cs)
      ensures r.Err? ==> r.error == StoreError
      ensures r.Ok? ==> r.value == SelectMembers(membRepo.rows, cs)
      ensures r.Ok? ==> forall m :: m in r.value <==> m in membRepo.rows && MemberMatchesAll(m, cs)
    {
      var ml := membRepo.GetList(cs);
      if ml.Err? {
        return Err(ml.error);
      }
      return Ok(ml.value);
    }

    /** The account ids of a member list, one per member, in order. */
    method GetAccountsIDs(ml: seq<Member>) returns (ids: seq<string>)
      ensures ids == AccountIDsOf(ml)
    {
      ids := [];
      for i := 0 to |ml|
        invariant |ids| == i
        invariant forall k :: 0 <= k < i ==> ids[k] == ml[k].accountID
      {
        ids := ids + [ml[i].accountID];
      }
    }

    /** The user ids of a member list, one per member, in order. */
    method GetUsersIDs(ml: seq<Member>) returns (ids: seq<string>)
      ensures |ids| == |ml|
      ensures forall i :: 0 <= i < |ml| ==> ids[i] == ml[i].userID
    {
      ids := [];
      for i := 0 to |ml|
        invariant |ids| == i
        invariant forall k :: 0 <= k < i ==> ids[k] == ml[k].userID
      {
        ids := ids + [ml[i].userID];
      }
    }

    /** Pairs each account of `al` with the role of its last member in `ml`,
        through a map from account id to role; accounts without a member
        are left out. */
    method JoinRoles(ml: seq<Member>, al: seq<Account>) returns (ar: seq<AccountWithRole>)
      ensures ar == Joined(al, ml)
    {
      var arm: map<string, string> := map[];
      for i := 0 to |ml|
        invariant forall aid :: aid in arm <==> LastRole(ml[..i], aid).Some?
        invariant forall aid :: aid in arm ==> arm[aid] == LastRole(ml[..i], aid).value
      {
        assert ml[..i + 1][..i] == ml[..i];
        arm := arm[ml[i].accountID := ml[i].role];
      }
      assert ml[..|ml|] == ml;
      ar := [];
      for j := 0 to |al|
        invariant ar == Joined(al[..j], ml)
      {
        assert al[..j + 1][..j] == al[..j];
        var a := al[j];
        if a.id in arm {
          ar := ar + [AccountWithRole(a, arm[a.id])];
        }
      }
      assert al[..|al|] == al;
    }

    /** The accounts on which user `uid` has a membership passing the
        caller's conditions, in account-table order. */
    method GetAccountsListByUserID(uid: string, cs: seq<Condition>) returns (r: Result<seq<Account>>)
      ensures r.Err? ==> r.error == StoreError
      ensures OpList in membRepo.outage || OpList in accRepo.outage || !MemberQueryValid(cs) ==> r.Err?
      ensures (OpList !in membRepo.outage && OpList !in accRepo.outage && MemberQueryValid(cs)
               && exists m :: m in membRepo.rows && m.userID == uid && MemberMatchesAll(m, cs)) ==> r.Ok?
      ensures r.Ok? ==>
                var ml := SelectMembers(membRepo.rows, WithUserFilter(cs, uid));
                r.value == SelectAccounts(accRepo.rows, [IDs(AccountIDsOf(ml))])
      ensures r.Ok? ==> forall a :: a in r.value <==>
                a in accRepo.rows
                && exists m :: m in membRepo.rows && m.accountID == a.id && m.userID == uid && MemberMatchesAll(m, cs)
    {
      var mr := membRepo.GetList(WithUserFilter(cs, uid));
      UserFilterRunnable(cs, uid);
      forall m: Member ensures MemberMatchesAll(m, WithUserFilter(cs, uid)) <==> m.userID == uid && MemberMatchesAll(m, cs) {
        UserFilterSelects(m, cs, uid);
      }
      if mr.Err? {
        return Err(mr.error);
      }
      var ml := mr.value;
      var ids := GetAccountsIDs(ml);
      var al := accRepo.GetList([IDs(ids)]);
      if |ids| > 0 {
        IDsRunnable(ids);
        forall a: Account ensures AccountMatches(a, IDs(ids)) <==> a.id in ids {
          IDsSelectAccounts(a, ids);
        }
      }
      if al.Err? {
        return Err(al.error);
      }
      SelectedByIDs(accRepo.rows, membRepo.rows, ml, ids, al.value, uid, cs);
      return Ok(al.value);
    }

    /** As GetAccountsListByUserID, each account paired with the role of the
        last of the user's memberships of it; the accounts keep the
        account-table order. */
    method GetAccountsListWithRoleByUserID(uid: string, cs: seq<Condition>) returns (r: Result<seq<AccountWithRole>>)
      ensures r.Err? ==> r.error == StoreError
      ensures OpList in membRepo.outage || OpList in accRepo.outage || !MemberQueryValid(cs) ==> r.Err?
      ensures (OpList !in membRepo.outage && OpList !in accRepo.outage && MemberQueryValid(cs)
               && exists m :: m in membRepo.rows && m.userID == uid && MemberMatchesAll(m, cs)) ==> r.Ok?
      ensures r.Ok? ==>
                var ml := SelectMembers(membRepo.rows, WithUserFilter(cs, uid));
                r.value == Joined(SelectAccounts(accRepo.rows, [IDs(AccountIDsOf(ml))]), ml)
      ensures r.Ok? ==> forall x :: x in r.value ==>
                x.account in accRepo.rows
                && exists m :: m in membRepo.rows && m.accountID == x.account.id && m.userID == uid
                               && m.role == x.role && MemberMatchesAll(m, cs)
      ensures r.Ok? ==> forall a ::
                (a in accRepo.rows
                 && exists m :: m in membRepo.rows && m.accountID == a.id && m.userID == uid && MemberMatchesAll(m, cs))
                ==> exists x :: x in r.value && x.account == a
    {
      var mr := membRepo.GetList(WithUserFilter(cs, uid));
      UserFilterRunnable(cs, uid);
      forall m: Member ensures MemberMatchesAll(m, WithUserFilter(cs, uid)) <==> m.userID == uid && MemberMatchesAll(m, cs) {
        UserFilterSelects(m, cs, uid);
      }
      if mr.Err? {
        return Err(mr.error);
      }
      var ml := mr.value;
      var ids := GetAccountsIDs(ml);
      var al := accRepo.GetList([IDs(ids)]);
      if |ids| > 0 {
        IDsRunnable(ids);
        forall a: Account ensures AccountMatches(a, IDs(ids)) <==> a.id in ids {
          IDsSelectAccounts(a, ids);
        }
      }
      if al.Err? {
        return Err(al.error);
      }
      SelectedByIDs(accRepo.rows, membRepo.rows, ml, ids, al.value, uid, cs);
      var ar := JoinRoles(ml, al.value);
      JoinedByUser(accRepo.rows, membRepo.rows, ml, al.value, uid, cs);
      return Ok(ar);
    }

    /** Whether user `uid` holds `role` on account `aid`; a failing member
        store reads as no. */
    method HasRole(aid: string, uid: string, role: string) returns (b: bool)
      ensures b <==> OpGet !in membRepo.outage && HasMembership(membRepo.rows, aid, uid, role)
    {
      var err := membRepo.HasRole(aid, uid, role);
      if err.Some? {
        return false;
      }
      return true;
    }
  }

  /** The account ids of a member list, in order. */
  function AccountIDsOf(ml: seq<Member>): (ids: seq<string>)
    ensures |ids| == |ml|
    ensures forall i :: 0 <= i < |ml| ==> ids[i] == ml[i].accountID
  {
    seq(|ml|, i requires 0 <= i < |ml| => ml[i].accountID)
  }

  /** Selecting by the account ids of the user's members yields the accounts
      on which the user has a membership passing the caller's conditions. */
  lemma SelectedByIDs(arows: seq<Account>, mrows: seq<Member>, ml: seq<Member>, ids: seq<string>,
                      al: seq<Account>, uid: string, cs: seq<Condition>)
    requires forall m :: m in ml <==> m in mrows && m.userID == uid && MemberMatchesAll(m, cs)
    requires |ids| == |ml| && forall i :: 0 <= i < |ml| ==> ids[i] == ml[i].accountID
    requires forall a :: a in al <==> a in arows && AccountMatchesAll(a, [IDs(ids)])
    requires |ids| > 0 ==> forall a: Account :: AccountMatches(a, IDs(ids)) <==> a.id in ids
    ensures forall a :: a in al <==>
              a in arows && exists m :: m in mrows && m.accountID == a.id && m.userID == uid && MemberMatchesAll(m, cs)
  {
    forall a | a in arows && AccountMatchesAll(a, [IDs(ids)])
      ensures exists m :: m in mrows && m.accountID == a.id && m.userID == uid && MemberMatchesAll(m, cs)
    {
      assert [IDs(ids)][0] == IDs(ids);
      assert AccountMatches(a, IDs(ids));
      if |ids| == 0 {
        assert false;
      }
      var i :| 0 <= i < |ids| && ids[i] == a.id;
      assert ml[i] in ml;
    }
    forall a, m | a in arows && m in mrows && m.accountID == a.id && m.userID == uid && MemberMatchesAll(m, cs)
      ensures a in al
    {
      var i :| 0 <= i < |ml| && ml[i] == m;
      assert ids[i] == a.id;
      assert AccountMatchesAll(a, [IDs(ids)]);
    }
  }

  /** The join of the selected accounts with the user's members pairs each
      with the role of one of the user's memberships of it and drops none. */
  lemma JoinedByUser(arows: seq<Account>, mrows: seq<Member>, ml: seq<Member>, al: seq<Account>,
                     uid: string, cs: seq<Condition>)
    requires forall m :: m in ml <==> m in mrows && m.userID == uid && MemberMatchesAll(m, cs)
    requires forall a :: a in al <==>
               a in arows && exists m :: m in mrows && m.accountID == a.id && m.userID == uid && MemberMatchesAll(m, cs)
    ensures forall x :: x in Joined(al, ml) ==>
              x.account in arows
              && exists m :: m in mrows && m.accountID == x.account.id && m.userID == uid
                             && m.role == x.role && MemberMatchesAll(m, cs)
    ensures forall a ::
              (a in arows
               && exists m :: m in mrows && m.accountID == a.id && m.userID == uid && MemberMatchesAll(m, cs))
              ==> exists x :: x in Joined(al, ml) && x.account == a
  {
    forall x | x in Joined(al, ml)
      ensures x.account in arows
      ensures exists m :: m in mrows && m.accountID == x.account.id && m.userID == uid
                          && m.role == x.role && MemberMatchesAll(m, cs)
    {
      JoinedMembers(al, ml, x);
      LastRoleIsLastMember(ml, x.account.id);
      var i :| 0 <= i < |ml| && ml[i].accountID == x.account.id && ml[i].role == x.role
               && forall j :: i < j < |ml| ==> ml[j].accountID != x.account.id;
      assert ml[i] in ml;
    }
    forall a, m | a in arows && m in mrows && m.accountID == a.id && m.userID == uid && MemberMatchesAll(m, cs)
      ensures exists x :: x in Joined(al, ml) && x.account == a
    {
      assert a in al;
      LastRoleIsLastMember(ml, a.id);
      var i :| 0 <= i < |ml| && ml[i] == m;
      var x := AccountWithRole(a, LastRole(ml, a.id).value);
      JoinedMembers(al, ml, x);
    }
  }
}
