/** The query-condition builder: filters, ordering and pagination as small
    values, and `ConditionsToQuery`, which assembles a list of them into one
    SQL suffix with positional `?` parameters. */
module Conditions {

  /** The section of the query a condition belongs to. */
  datatype QuerySection = QsWhere | QsOrderBy | QsLimit | QsOffset

  /** The numeric value of each section (declared with `iota + 1`); the
      assembly sorts conditions by it. */
  function Rank(s: QuerySection): nat {
    match s
    case QsWhere => 1
    case QsOrderBy => 2
    case QsLimit => 3
    case QsOffset => 4
  }

  /** A bind parameter. The builder binds booleans, strings and integers. */
  datatype Value = BoolValue(b: bool) | StringValue(s: string) | IntValue(i: int)

  /** A query fragment, its parameters in placeholder order, and its section. */
  datatype Condition = Condition(query: string, params: seq<Value>, section: QuerySection)

  /** A predefined list ordering; any other integer is an unknown ordering. */
  type Order = int

  const OrderByCreatedAtAsc: Order := 1
  const OrderByCreatedAtDesc: Order := 2
  const OrderByUpdatedAtAsc: Order := 3
  const OrderByUpdatedAtDesc: Order := 4

  const OrderQueryMap: map<Order, string> := map[
    OrderByCreatedAtAsc := "created_at ASC",
    OrderByCreatedAtDesc := "created_at DESC",
    OrderByUpdatedAtAsc := "updated_at ASC",
    OrderByUpdatedAtDesc := "updated_at DESC"
  ]

  /** The row limit used when the caller asks for none or a negative one. */
  const DefaultLimit: int := 100

  // ---------------------------------------------------------------------------
  // String helpers

  /** `parts` separated by `sep`, built left to right. */
  function Join(parts: seq<string>, sep: string): string
    decreases |parts|
  {
    if |parts| == 0 then ""
    else if |parts| == 1 then parts[0]
    else Join(parts[..|parts| - 1], sep) + sep + parts[|parts| - 1]
  }

  lemma AppendAssoc<T>(a: seq<T>, b: seq<T>, c: seq<T>)
    ensures a + (b + c) == (a + b) + c
  {
  }

  /** Every part preceded by `sep`: what a loop doing `acc += sep + part` builds. */
  function Prefixed(parts: seq<string>, sep: string): string
    decreases |parts|
  {
    if |parts| == 0 then ""
    else Prefixed(parts[..|parts| - 1], sep) + sep + parts[|parts| - 1]
  }

  lemma PrefixedSnoc(parts: seq<string>, p: string, sep: string)
    ensures Prefixed(parts + [p], sep) == Prefixed(parts, sep) + sep + p
  {
  }

  /** Go's `strings.TrimPrefix`: drops `prefix` from the front of `s` when it is there. */
  function TrimPrefix(s: string, prefix: string): string {
    if |prefix| <= |s| && s[..|prefix|] == prefix then s[|prefix|..] else s
  }

  /** The number of occurrences of `ch` in `s`. */
  function CountChar(s: string, ch: char): nat
    decreases |s|
  {
    if |s| == 0 then 0
    else CountChar(s[..|s| - 1], ch) + (if s[|s| - 1] == ch then 1 else 0)
  }

  lemma {:induction false} CountCharAppend(s: string, t: string, ch: char)
    ensures CountChar(s + t, ch) == CountChar(s, ch) + CountChar(t, ch)
    decreases |t|
  {
    if |t| == 0 {
      assert s + t == s;
    } else {
      var u := t[..|t| - 1];
      assert (s + t)[..|s + t| - 1] == s + u;
      CountCharAppend(s, u, ch);
    }
  }

  /** Joining with a separator adds nothing in front: the accumulated
      string is the separator followed by the join. */
  lemma {:induction false} PrefixedIsSepJoin(parts: seq<string>, sep: string)
    requires |parts| > 0
    ensures Prefixed(parts, sep) == sep + Join(parts, sep)
    decreases |parts|
  {
    if |parts| == 1 {
      assert parts[..0] == [];
    } else {
      PrefixedIsSepJoin(parts[..|parts| - 1], sep);
    }
  }

  /** The join read from the front: the first part, then the separator and
      the join of the rest. */
  lemma {:induction false} JoinFront(parts: seq<string>, sep: string)
    requires |parts| > 0
    ensures Join(parts, sep) == parts[0] + (if |parts| == 1 then "" else sep + Join(parts[1..], sep))
    decreases |parts|
  {
    if |parts| > 2 {
      var init := parts[..|parts| - 1];
      JoinFront(init, sep);
      assert init[1..] == parts[1..][..|parts[1..]| - 1];
    } else if |parts| == 2 {
      assert parts[..1] == [parts[0]];
      assert parts[1..] == [parts[1]];
    }
  }

  lemma TrimSepPrefix(sep: string, rest: string)
    ensures TrimPrefix(sep + rest, sep) == rest
  {
    assert (sep + rest)[..|sep|] == sep;
    assert (sep + rest)[|sep|..] == rest;
  }

  // ---------------------------------------------------------------------------
  // Constructors

  /** The text of a predefined ordering; an unknown ordering renders as "". */
  function OrderString(o: Order): (r: string)
    ensures o == OrderByCreatedAtAsc ==> r == "created_at ASC"
    ensures o == OrderByCreatedAtDesc ==> r == "created_at DESC"
    ensures o == OrderByUpdatedAtAsc ==> r == "updated_at ASC"
    ensures o == OrderByUpdatedAtDesc ==> r == "updated_at DESC"
    ensures !(OrderByCreatedAtAsc <= o <= OrderByUpdatedAtDesc) ==> r == ""
  {
    if o in OrderQueryMap then OrderQueryMap[o] else ""
  }

  /** Exactly the four predefined orderings render as non-empty text. */
  lemma OrderStringKnown(o: Order)
    ensures OrderString(o) != "" <==> OrderByCreatedAtAsc <= o <= OrderByUpdatedAtDesc
  {
  }

  /** A condition whose fragment holds one `?` placeholder per parameter it binds. */
  predicate Balanced(c: Condition) {
    CountChar(c.query, '?') == |c.params|
  }

  /** A fragment ending in its only placeholder holds exactly one. */
  lemma TrailingPlaceholder(prefix: string)
    requires forall i :: 0 <= i < |prefix| ==> prefix[i] != '?'
    ensures CountChar(prefix + "?", '?') == 1
  {
    CountCharAbsent(prefix, '?');
    OnePlaceholder();
    CountCharAppend(prefix, "?", '?');
  }

  /** Selects rows whose `disabled` column equals `v`. */
  function Disabled(v: bool): (c: Condition)
    ensures c.section == QsWhere && c.query == "disabled=?"
    ensures |c.params| == 1 && c.params[0] == BoolValue(v)
    ensures Balanced(c)
  {
    TrailingPlaceholder("disabled=");
    assert "disabled=" + "?" == "disabled=?";
    Condition("disabled=?", [BoolValue(v)], QsWhere)
  }

  /** Selects members whose `role` column equals `v`. */
  function Role(v: string): (c: Condition)
    ensures c.section == QsWhere && c.query == "role=?"
    ensures |c.params| == 1 && c.params[0] == StringValue(v)
    ensures Balanced(c)
  {
    TrailingPlaceholder("role=");
    assert "role=" + "?" == "role=?";
    Condition("role=?", [StringValue(v)], QsWhere)
  }

  /** Selects rows whose `user_id` column equals `id`. */
  function UserID(id: string): (c: Condition)
    ensures c.section == QsWhere && c.query == "user_id=?"
    ensures |c.params| == 1 && c.params[0] == StringValue(id)
    ensures Balanced(c)
  {
    TrailingPlaceholder("user_id=");
    assert "user_id=" + "?" == "user_id=?";
    Condition("user_id=?", [StringValue(id)], QsWhere)
  }

  /** Selects rows whose `account_id` column equals `id`. */
  function AccountID(id: string): (c: Condition)
    ensures c.section == QsWhere && c.query == "account_id=?"
    ensures |c.params| == 1 && c.params[0] == StringValue(id)
    ensures Balanced(c)
  {
    TrailingPlaceholder("account_id=");
    assert "account_id=" + "?" == "account_id=?";
    Condition("account_id=?", [StringValue(id)], QsWhere)
  }

  /** `n` placeholders separated by ", ", as the IN expansion writes them. */
  function Placeholders(n: nat): (r: string)
    ensures CountChar(r, '?') == n
  {
    if n == 0 then ""
    else if n == 1 then
      OnePlaceholder();
      "?"
    else
      var r := Placeholders(n - 1) + ", ?";
      OnePlaceholder();
      CountCharAppend(Placeholders(n - 1), ", ?", '?');
      r
  }

  /** The single placeholder and the separated one each hold one `?`. */
  lemma OnePlaceholder()
    ensures CountChar("?", '?') == 1 && CountChar(", ?", '?') == 1
  {
    assert "?"[..0] == "";
    CountCharAbsent(", ", '?');
    CountCharAppend(", ", "?", '?');
    assert ", " + "?" == ", ?";
  }

  /** The IN expansion of `column IN (?)` for `n` values. */
  function InQuery(column: string, n: nat): string {
    column + " IN (" + Placeholders(n) + ")"
  }

  /** The values bound by an IN expansion, one per element and in order. */
  function StringValues(ids: seq<string>): (r: seq<Value>)
    ensures |r| == |ids|
    ensures forall i :: 0 <= i < |ids| ==> r[i] == StringValue(ids[i])
  {
    seq(|ids|, i requires 0 <= i < |ids| => StringValue(ids[i]))
  }

  /** A string without `ch` counts none of it. */
  lemma {:induction false} CountCharAbsent(s: string, ch: char)
    requires forall i :: 0 <= i < |s| ==> s[i] != ch
    ensures CountChar(s, ch) == 0
    decreases |s|
  {
    if |s| > 0 {
      CountCharAbsent(s[..|s| - 1], ch);
    }
  }

  /** The IN expansion holds one placeholder per value when the column name has none. */
  lemma InQueryPlaceholders(column: string, n: nat)
    requires forall i :: 0 <= i < |column| ==> column[i] != '?'
    ensures CountChar(InQuery(column, n), '?') == n
  {
    CountCharAbsent(column, '?');
    CountCharAbsent(" IN (", '?');
    CountCharAbsent(")", '?');
    CountCharAppend(column, " IN (", '?');
    CountCharAppend(column + " IN (", Placeholders(n), '?');
    CountCharAppend(column + " IN (" + Placeholders(n), ")", '?');
  }

  /** `column IN (...)` over `ids`, with the placeholder list expanded. */
  function InCondition(column: string, ids: seq<string>): (c: Condition)
    requires forall i :: 0 <= i < |column| ==> column[i] != '?'
    ensures c.section == QsWhere
    ensures |ids| > 0 ==> c.query == InQuery(column, |ids|) && CountChar(c.query, '?') == |ids|
    ensures |ids| > 0 ==> c.params == StringValues(ids)
    ensures |ids| > 0 ==> Balanced(c)
  {
    InQueryPlaceholders(column, |ids|);
    Condition(InQuery(column, |ids|), StringValues(ids), QsWhere)
  }

  /** Selects rows whose `user_id` is one of `ids`. */
  function UserIDs(ids: seq<string>): (c: Condition)
    ensures c.section == QsWhere
    ensures |ids| > 0 ==> c.query == InQuery("user_id", |ids|) && CountChar(c.query, '?') == |ids|
    ensures |ids| > 0 ==> c.params == StringValues(ids)
    ensures |ids| > 0 ==> Balanced(c)
  {
    InCondition("user_id", ids)
  }

  /** Selects rows whose `account_id` is one of `ids`. */
  function AccountIDs(ids: seq<string>): (c: Condition)
    ensures c.section == QsWhere
    ensures |ids| > 0 ==> c.query == InQuery("account_id", |ids|) && CountChar(c.query, '?') == |ids|
    ensures |ids| > 0 ==> c.params == StringValues(ids)
    ensures |ids| > 0 ==> Balanced(c)
  {
    InCondition("account_id", ids)
  }

  /** Selects rows whose `id` is one of `ids`. */
  function IDs(ids: seq<string>): (c: Condition)
    ensures c.section == QsWhere
    ensures |ids| > 0 ==> c.query == InQuery("id", |ids|) && CountChar(c.query, '?') == |ids|
    ensures |ids| > 0 ==> c.params == StringValues(ids)
    ensures |ids| > 0 ==> Balanced(c)
  {
    InCondition("id", ids)
  }

  /** The texts of a list of orderings, in order. */
  function OrderStrings(os: seq<Order>): (r: seq<string>)
    ensures |r| == |os|
    ensures forall i :: 0 <= i < |os| ==> r[i] == OrderString(os[i])
  {
    seq(|os|, i requires 0 <= i < |os| => OrderString(os[i]))
  }

  /** The keys of an ORDER BY: nothing for no keys, otherwise a space and
      the keys' texts separated by ", ". */
  function KeyList(os: seq<Order>): string {
    if |os| == 0 then "" else " " + Join(OrderStrings(os), ", ")
  }

  /** One more key extends the key list by its separator and its text. */
  lemma KeyListStep(os: seq<Order>, k: nat)
    requires k < |os|
    ensures KeyList(os[..k + 1]) == KeyList(os[..k]) + (if k == 0 then " " else ", ") + OrderString(os[k])
  {
    var ps := OrderStrings(os[..k + 1]);
    assert ps == OrderStrings(os[..k]) + [OrderString(os[k])];
    assert ps[..|ps| - 1] == OrderStrings(os[..k]);
    if k == 0 {
      assert KeyList(os[..k]) == "";
      assert Join(ps, ", ") == OrderString(os[k]);
    } else {
      var prev := Join(OrderStrings(os[..k]), ", ");
      assert Join(ps, ", ") == prev + ", " + OrderString(os[k]);
      AppendAssoc(" ", prev + ", ", OrderString(os[k]));
      AppendAssoc(" ", prev, ", ");
    }
  }

  /** An ORDER BY condition over the given keys: "ORDER BY", then the keys'
      texts separated by ", ", the first one after a single space. */
  method OrderBy(os: seq<Order>) returns (c: Condition)
    ensures c.section == QsOrderBy && c.params == []
    ensures c.query == "ORDER BY" + KeyList(os)
    ensures Balanced(c)
  {
    var q := "ORDER BY";
    ghost var head := q;
    for k := 0 to |os|
      invariant q == head + KeyList(os[..k])
    {
      KeyListStep(os, k);
      var key := OrderString(os[k]);
      ghost var keys := KeyList(os[..k]);
      if k > 0 {
        AppendAssoc(head, keys + ", ", key);
        AppendAssoc(head, keys, ", ");
        q := q + ", " + key;
      } else {
        AppendAssoc(head, keys + " ", key);
        AppendAssoc(head, keys, " ");
        q := q + " " + key;
      }
    }
    assert os[..|os|] == os;
    OrderByNoPlaceholder(os);
    c := Condition(q, [], QsOrderBy);
  }

  /** No ordering's text holds a placeholder. */
  lemma OrderStringNoPlaceholder(o: Order)
    ensures CountChar(OrderString(o), '?') == 0
  {
    CountCharAbsent(OrderString(o), '?');
  }

  /** A join of placeholder-free parts with a placeholder-free separator holds none. */
  lemma {:induction false} JoinNoPlaceholder(parts: seq<string>, sep: string)
    requires CountChar(sep, '?') == 0
    requires forall i :: 0 <= i < |parts| ==> CountChar(parts[i], '?') == 0
    ensures CountChar(Join(parts, sep), '?') == 0
    decreases |parts|
  {
    if |parts| > 1 {
      var init := parts[..|parts| - 1];
      JoinNoPlaceholder(init, sep);
      CountCharAppend(Join(init, sep), sep, '?');
      CountCharAppend(Join(init, sep) + sep, parts[|parts| - 1], '?');
    }
  }

  /** An ORDER BY text binds nothing, so it holds no placeholder. */
  lemma OrderByNoPlaceholder(os: seq<Order>)
    ensures CountChar("ORDER BY" + KeyList(os), '?') == 0
  {
    CountCharAbsent("ORDER BY", '?');
    if |os| > 0 {
      var ps := OrderStrings(os);
      forall i | 0 <= i < |ps|
        ensures CountChar(ps[i], '?') == 0
      {
        OrderStringNoPlaceholder(os[i]);
      }
      CountCharAbsent(", ", '?');
      JoinNoPlaceholder(ps, ", ");
      CountCharAbsent(" ", '?');
      CountCharAppend(" ", Join(ps, ", "), '?');
    }
    CountCharAppend("ORDER BY", KeyList(os), '?');
  }

  /** The first key of a non-empty ordering follows a single space, and
      every further key follows ", ". */
  lemma OrderByKeys(os: seq<Order>)
    requires |os| > 0
    ensures KeyList(os)
         == " " + OrderString(os[0]) + (if |os| == 1 then "" else ", " + Join(OrderStrings(os[1..]), ", "))
  {
    var ps := OrderStrings(os);
    JoinFront(ps, ", ");
    assert ps[1..] == OrderStrings(os[1..]);
    AppendAssoc(" ", ps[0], if |ps| == 1 then "" else ", " + Join(ps[1..], ", "));
  }

  /** A row limit: `v` when positive, otherwise the default of 100. */
  function Limit(v: int): (c: Condition)
    ensures c.section == QsLimit && c.query == "LIMIT ?"
    ensures |c.params| == 1 && c.params[0].IntValue? && c.params[0].i > 0
    ensures v > 0 ==> c.params[0].i == v
    ensures v <= 0 ==> c.params[0].i == DefaultLimit
    ensures Balanced(c)
  {
    TrailingPlaceholder("LIMIT ");
    assert "LIMIT " + "?" == "LIMIT ?";
    var n := if v <= 0 then DefaultLimit else v;
    Condition("LIMIT ?", [IntValue(n)], QsLimit)
  }

  /** A row offset: `v` floored at 0. */
  function Offset(v: int): (c: Condition)
    ensures c.section == QsOffset && c.query == "OFFSET ?"
    ensures |c.params| == 1 && c.params[0].IntValue? && c.params[0].i >= 0
    ensures v >= 0 ==> c.params[0].i == v
    ensures v < 0 ==> c.params[0].i == 0
    ensures Balanced(c)
  {
    TrailingPlaceholder("OFFSET ");
    assert "OFFSET " + "?" == "OFFSET ?";
    var n := if v < 0 then 0 else v;
    Condition("OFFSET ?", [IntValue(n)], QsOffset)
  }

  // ---------------------------------------------------------------------------
  // Assembly: the specification

  function ParamsOf(c: Condition): seq<Value> { c.params }

  function QueryOf(c: Condition): seq<string> { [c.query] }

  /** The concatenation of `f` over the conditions, in order. */
  function FlatMap<T>(s: seq<Condition>, f: Condition -> seq<T>): seq<T>
    decreases |s|
  {
    if |s| == 0 then [] else FlatMap(s[..|s| - 1], f) + f(s[|s| - 1])
  }

  /** Every parameter of every condition, in list order. */
  function AllParams(s: seq<Condition>): seq<Value> {
    FlatMap(s, ParamsOf)
  }

  /** The fragments of the conditions, in list order. */
  function Queries(s: seq<Condition>): seq<string> {
    FlatMap(s, QueryOf)
  }

  /** The conditions of one section, in list order. */
  function Section(s: seq<Condition>, sec: QuerySection): seq<Condition>
    decreases |s|
  {
    if |s| == 0 then []
    else Section(s[..|s| - 1], sec) + (if s[|s| - 1].section == sec then [s[|s| - 1]] else [])
  }

  /** A section holds each condition of that section as often as the list
      does, and nothing else. */
  lemma {:induction false} SectionCount(s: seq<Condition>, sec: QuerySection)
    ensures forall c :: multiset(Section(s, sec))[c] == if c.section == sec then multiset(s)[c] else 0
    decreases |s|
  {
    if |s| > 0 {
      var init, last := s[..|s| - 1], s[|s| - 1];
      assert s == init + [last];
      SectionCount(init, sec);
    }
  }

  /** The fragment of the last condition of a section, or "" when there is none. */
  function LastQuery(s: seq<Condition>, sec: QuerySection): string {
    var sub := Section(s, sec);
    if |sub| == 0 then "" else sub[|sub| - 1].query
  }

  /** A fragment as it is appended to the query: after one space, or not at all when empty. */
  function Clause(fragment: string): string {
    if fragment == "" then "" else " " + fragment
  }

  /** " WHERE " and every WHERE fragment joined by " AND ", or "" without WHERE conditions. */
  function WhereClause(s: seq<Condition>): string {
    var ws := Queries(Section(s, QsWhere));
    if |ws| == 0 then "" else " WHERE " + Join(ws, " AND ")
  }

  /** The assembled query of a section-sorted list: the WHERE clause, then
      the last ORDER BY, the last LIMIT and the last OFFSET fragment. */
  function QueryText(s: seq<Condition>): string {
    WhereClause(s)
    + Clause(LastQuery(s, QsOrderBy))
    + Clause(LastQuery(s, QsLimit))
    + Clause(LastQuery(s, QsOffset))
  }

  /** Every section comes before every section of a higher rank. */
  predicate SortedBySection(s: seq<Condition>) {
    forall i, j :: 0 <= i < j < |s| ==> Rank(s[i].section) <= Rank(s[j].section)
  }

  /** What the library sort may return for `cs`: the same conditions,
      grouped by section, in any order within a section. */
  predicate IsSortingOf(sorted: seq<Condition>, cs: seq<Condition>) {
    multiset(sorted) == multiset(cs) && SortedBySection(sorted)
  }

  // ---------------------------------------------------------------------------
  // Assembly: the algorithm

  lemma SectionSnoc(s: seq<Condition>, x: Condition, sec: QuerySection)
    ensures Section(s + [x], sec) == Section(s, sec) + Own(x, sec)
  {
  }

  lemma FlatMapSnoc<T>(s: seq<Condition>, x: Condition, f: Condition -> seq<T>)
    ensures FlatMap(s + [x], f) == FlatMap(s, f) + f(x)
  {
  }

  /** The last fragment of a section after one more condition. */
  lemma LastQuerySnoc(done: seq<Condition>, c: Condition, sec: QuerySection)
    ensures LastQuery(done + [c], sec) == if c.section == sec then c.query else LastQuery(done, sec)
  {
    SectionSnoc(done, c, sec);
    if c.section != sec {
      AppendNil(Section(done, sec));
    }
  }

  /** The WHERE fragments after one more condition. */
  lemma WhereSnoc(done: seq<Condition>, c: Condition)
    ensures Queries(Section(done + [c], QsWhere))
         == Queries(Section(done, QsWhere)) + (if c.section == QsWhere then [c.query] else [])
  {
    SectionSnoc(done, c, QsWhere);
    if c.section == QsWhere {
      FlatMapSnoc(Section(done, QsWhere), c, QueryOf);
    } else {
      AppendNil(Section(done, QsWhere));
      AppendNil(Queries(Section(done, QsWhere)));
    }
  }

  /** The loop's accumulators after one more condition. */
  lemma AssemblyStep(done: seq<Condition>, c: Condition)
    ensures AllParams(done + [c]) == AllParams(done) + c.params
    ensures Queries(Section(done + [c], QsWhere))
         == Queries(Section(done, QsWhere)) + (if c.section == QsWhere then [c.query] else [])
    ensures LastQuery(done + [c], QsOrderBy) == if c.section == QsOrderBy then c.query else LastQuery(done, QsOrderBy)
    ensures LastQuery(done + [c], QsLimit) == if c.section == QsLimit then c.query else LastQuery(done, QsLimit)
    ensures LastQuery(done + [c], QsOffset) == if c.section == QsOffset then c.query else LastQuery(done, QsOffset)
  {
    FlatMapSnoc(done, c, ParamsOf);
    WhereSnoc(done, c);
    LastQuerySnoc(done, c, QsOrderBy);
    LastQuerySnoc(done, c, QsLimit);
    LastQuerySnoc(done, c, QsOffset);
  }

  /** The WHERE accumulator is empty exactly when there are no WHERE
      fragments; otherwise trimming its leading " AND " leaves the join. */
  lemma WhereAccumulator(ws: seq<string>)
    ensures (Prefixed(ws, " AND ") == "") == (|ws| == 0)
    ensures |ws| > 0 ==> TrimPrefix(Prefixed(ws, " AND "), " AND ") == Join(ws, " AND ")
  {
    if |ws| > 0 {
      PrefixedIsSepJoin(ws, " AND ");
      TrimSepPrefix(" AND ", Join(ws, " AND "));
    }
  }

  /** The loop of the assembly over the sorted conditions: every WHERE
      fragment appended after " AND ", the last fragment of each other
      section, and every parameter in order. */
  method Accumulate(sorted: seq<Condition>)
    returns (where: string, orderBy: string, limit: string, offset: string, params: seq<Value>)
    ensures where == Prefixed(Queries(Section(sorted, QsWhere)), " AND ")
    ensures orderBy == LastQuery(sorted, QsOrderBy)
    ensures limit == LastQuery(sorted, QsLimit)
    ensures offset == LastQuery(sorted, QsOffset)
    ensures params == AllParams(sorted)
  {
    where, orderBy, limit, offset, params := "", "", "", "", [];
    ghost var done: seq<Condition> := [];
    var i := 0;
    while i < |sorted|
      invariant 0 <= i <= |sorted| && done == sorted[..i]
      invariant where == Prefixed(Queries(Section(done, QsWhere)), " AND ")
      invariant orderBy == LastQuery(done, QsOrderBy)
      invariant limit == LastQuery(done, QsLimit)
      invariant offset == LastQuery(done, QsOffset)
      invariant params == AllParams(done)
    {
      var c := sorted[i];
      AssemblyStep(done, c);
      ghost var ws := Queries(Section(done, QsWhere));
      match c.section {
        case QsWhere =>
          PrefixedSnoc(ws, c.query, " AND ");
          where := where + " AND " + c.query;
        case QsLimit =>
          AppendNil(ws);
          limit := c.query;
        case QsOffset =>
          AppendNil(ws);
          offset := c.query;
        case QsOrderBy =>
          AppendNil(ws);
          orderBy := c.query;
      }
      params := params + c.params;
      done := done + [c];
      i := i + 1;
    }
    assert done == sorted;
  }

  /** Assembles the conditions. `sorted` is the order the library sort
      leaves `cs` in. WHERE fragments are joined by " AND "; of ORDER BY,
      LIMIT and OFFSET only the last fragment is kept; the parameters of all
      conditions are collected in sorted order. */
  method ConditionsToQuery(cs: seq<Condition>, sorted: seq<Condition>) returns (q: string, params: seq<Value>)
    requires IsSortingOf(sorted, cs)
    ensures q == QueryText(sorted) && params == AllParams(sorted)
    ensures |cs| == 0 ==> q == "" && params == []
    ensures |params| == |AllParams(cs)|
    ensures (forall c :: c in cs ==> Balanced(c)) ==> CountChar(q, '?') == |BoundParams(sorted)|
    ensures Bindable(cs) ==> CountChar(q, '?') == |params|
  {
    q, params := "", [];
    if |cs| == 0 {
      assert |sorted| == |multiset(sorted)| == 0;
      return;
    }
    var where, orderBy, limit, offset;
    where, orderBy, limit, offset, params := Accumulate(sorted);
    WhereAccumulator(Queries(Section(sorted, QsWhere)));
    if where != "" {
      q := " WHERE " + TrimPrefix(where, " AND ");
    }
    assert q == WhereClause(sorted);
    if orderBy != "" {
      AppendAssoc(q, " ", orderBy);
      q := q + " " + orderBy;
    }
    assert q == WhereClause(sorted) + Clause(orderBy);
    if limit != "" {
      AppendAssoc(q, " ", limit);
      q := q + " " + limit;
    }
    assert q == WhereClause(sorted) + Clause(orderBy) + Clause(limit);
    if offset != "" {
      AppendAssoc(q, " ", offset);
      q := q + " " + offset;
    }
    ParamCountPreserved(cs, sorted);
    if forall c :: c in cs ==> Balanced(c) {
      assert forall c :: c in sorted ==> c in multiset(cs);
      BoundParamsCount(sorted);
    }
    if Bindable(cs) {
      PlaceholdersMatch(cs, sorted);
    }
  }

  // ---------------------------------------------------------------------------
  // Properties of the assembly

  lemma {:induction false} FlatMapAppend<T>(u: seq<Condition>, v: seq<Condition>, f: Condition -> seq<T>)
    ensures FlatMap(u + v, f) == FlatMap(u, f) + FlatMap(v, f)
    decreases |v|
  {
    if |v| == 0 {
      assert u + v == u;
    } else {
      var init := v[..|v| - 1];
      assert (u + v)[..|u + v| - 1] == u + init;
      FlatMapAppend(u, init, f);
    }
  }

  /** A list holds what it holds without its `j`-th element, plus that element. */
  lemma MultisetSplitAt(b: seq<Condition>, j: nat)
    requires j < |b|
    ensures multiset(b) == multiset(b[..j] + b[j + 1..]) + multiset{b[j]}
  {
    assert b[j..] == [b[j]] + b[j + 1..];
    assert b == b[..j] + b[j..];
    AppendAssoc(b[..j], [b[j]], b[j + 1..]);
  }

  lemma MultisetCancel(m1: multiset<Condition>, m2: multiset<Condition>, x: Condition)
    requires m1 + multiset{x} == m2 + multiset{x}
    ensures m1 == m2
  {
    forall y
      ensures m1[y] == m2[y]
    {
      assert (m1 + multiset{x})[y] == m1[y] + multiset{x}[y];
      assert (m2 + multiset{x})[y] == m2[y] + multiset{x}[y];
    }
  }

  /** Taking the element at `j` out of `b` leaves a list with the same
      elements as `a` without its last one, when `b[j]` is that element. */
  lemma RemoveMatching(a: seq<Condition>, b: seq<Condition>, j: nat)
    requires |a| > 0 && j < |b| && b[j] == a[|a| - 1]
    requires multiset(a) == multiset(b)
    ensures multiset(a[..|a| - 1]) == multiset(b[..j] + b[j + 1..])
  {
    var n := |a| - 1;
    MultisetSplitAt(b, j);
    assert a == a[..n] + [a[n]];
    MultisetCancel(multiset(a[..n]), multiset(b[..j] + b[j + 1..]), a[n]);
  }

  /** What is collected from `b` is what is collected from `b` without
      `b[j]`, plus what `b[j]` contributes. */
  lemma FlatMapRemove<T>(b: seq<Condition>, j: nat, f: Condition -> seq<T>)
    requires j < |b|
    ensures multiset(FlatMap(b, f)) == multiset(FlatMap(b[..j] + b[j + 1..], f)) + multiset(f(b[j]))
  {
    var p, x, q := b[..j], b[j], b[j + 1..];
    assert b[j..] == [x] + q;
    assert b == p + b[j..];
    AppendAssoc(p, [x], q);
    FlatMapAppend(p + [x], q, f);
    FlatMapSnoc(p, x, f);
    FlatMapAppend(p, q, f);
    var fp, fq := FlatMap(p, f), FlatMap(q, f);
    assert FlatMap(b, f) == (fp + f(x)) + fq;
    assert FlatMap(p + q, f) == fp + fq;
    assert multiset((fp + f(x)) + fq) == multiset(fp) + multiset(f(x)) + multiset(fq);
    assert multiset(fp + fq) == multiset(fp) + multiset(fq);
  }

  /** Reordering the conditions reorders what is collected from them and
      loses or duplicates nothing. */
  lemma {:induction false} FlatMapPermutation<T>(a: seq<Condition>, b: seq<Condition>, f: Condition -> seq<T>)
    requires multiset(a) == multiset(b)
    ensures multiset(FlatMap(a, f)) == multiset(FlatMap(b, f))
    decreases |a|
  {
    if |a| == 0 {
      assert |b| == |multiset(b)| == 0;
    } else {
      var n := |a| - 1;
      assert a[n] in multiset(b);
      var j :| 0 <= j < |b| && b[j] == a[n];
      RemoveMatching(a, b, j);
      FlatMapPermutation(a[..n], b[..j] + b[j + 1..], f);
      FlatMapRemove(b, j, f);
    }
  }

  /** However the sort arranges the conditions, the query binds as many
      parameters as the conditions hold together. */
  lemma ParamCountPreserved(cs: seq<Condition>, sorted: seq<Condition>)
    requires multiset(sorted) == multiset(cs)
    ensures |AllParams(sorted)| == |AllParams(cs)|
  {
    FlatMapPermutation(sorted, cs, ParamsOf);
    assert |AllParams(sorted)| == |multiset(AllParams(sorted))|;
  }

  lemma SectionPermutation(a: seq<Condition>, b: seq<Condition>, sec: QuerySection)
    requires multiset(a) == multiset(b)
    ensures multiset(Section(a, sec)) == multiset(Section(b, sec))
  {
    SectionCount(a, sec);
    SectionCount(b, sec);
    assert forall c :: multiset(Section(a, sec))[c] == multiset(Section(b, sec))[c];
  }

  /** A list holding only lower sections has nothing in section `sec`. */
  lemma NothingRanksAbove(s: seq<Condition>, sec: QuerySection)
    requires forall i :: 0 <= i < |s| ==> Rank(s[i].section) < Rank(sec)
    ensures Section(s, sec) == []
  {
  }

  /** Dropping the last condition of a section-sorted list keeps it
      sorted, and nothing in it ranks above the dropped one. */
  lemma SortedInit(init: seq<Condition>, x: Condition)
    requires SortedBySection(init + [x])
    ensures SortedBySection(init)
    ensures forall i :: 0 <= i < |init| ==> Rank(init[i].section) <= Rank(x.section)
  {
    var s := init + [x];
    assert forall i :: 0 <= i < |init| ==> s[i] == init[i];
    assert s[|init|] == x;
  }

  lemma AppendNil<T>(t: seq<T>)
    ensures t + [] == t
  {
  }


  /** What a condition adds to section `sec` when appended. */
  function Own(x: Condition, sec: QuerySection): seq<Condition> {
    if x.section == sec then [x] else []
  }

  /** Four groups followed by `x` are the groups with `x` added to its own
      group, when every group above `x`'s is empty. */
  lemma GroupsSnoc(w: seq<Condition>, o: seq<Condition>, l: seq<Condition>, f: seq<Condition>, x: Condition)
    requires Rank(x.section) < 2 ==> o == []
    requires Rank(x.section) < 3 ==> l == []
    requires Rank(x.section) < 4 ==> f == []
    ensures (w + o + l + f) + [x]
         == (w + Own(x, QsWhere)) + (o + Own(x, QsOrderBy)) + (l + Own(x, QsLimit)) + (f + Own(x, QsOffset))
  {
  }

  /** Appending a condition that ranks at least as high as every other
      keeps a list split into its four groups. */
  lemma SplitSnoc(init: seq<Condition>, x: Condition)
    requires init == Section(init, QsWhere) + Section(init, QsOrderBy) + Section(init, QsLimit) + Section(init, QsOffset)
    requires forall i :: 0 <= i < |init| ==> Rank(init[i].section) <= Rank(x.section)
    ensures init + [x]
         == Section(init + [x], QsWhere) + Section(init + [x], QsOrderBy)
            + Section(init + [x], QsLimit) + Section(init + [x], QsOffset)
  {
    SectionSnoc(init, x, QsWhere);
    SectionSnoc(init, x, QsOrderBy);
    SectionSnoc(init, x, QsLimit);
    SectionSnoc(init, x, QsOffset);
    if Rank(x.section) < 2 {
      NothingRanksAbove(init, QsOrderBy);
    }
    if Rank(x.section) < 3 {
      NothingRanksAbove(init, QsLimit);
    }
    if Rank(x.section) < 4 {
      NothingRanksAbove(init, QsOffset);
    }
    GroupsSnoc(Section(init, QsWhere), Section(init, QsOrderBy), Section(init, QsLimit), Section(init, QsOffset), x);
  }

  /** A section-sorted list is its WHERE, ORDER BY, LIMIT and OFFSET
      conditions, one group after the other. */
  lemma {:induction false} SortedSplit(s: seq<Condition>)
    requires SortedBySection(s)
    ensures s == Section(s, QsWhere) + Section(s, QsOrderBy) + Section(s, QsLimit) + Section(s, QsOffset)
    decreases |s|
  {
    if |s| > 0 {
      var init, x := s[..|s| - 1], s[|s| - 1];
      assert s == init + [x];
      SortedInit(init, x);
      SortedSplit(init);
      SplitSnoc(init, x);
    }
  }

  /** The parameters come out grouped by section: all WHERE parameters,
      then ORDER BY's (none from the constructor), then LIMIT's, then
      OFFSET's; each group holds exactly that section's input parameters,
      in the order the sort left them. */
  lemma ParamsGroupedBySection(cs: seq<Condition>, sorted: seq<Condition>)
    requires IsSortingOf(sorted, cs)
    ensures AllParams(sorted)
         == AllParams(Section(sorted, QsWhere)) + AllParams(Section(sorted, QsOrderBy))
            + AllParams(Section(sorted, QsLimit)) + AllParams(Section(sorted, QsOffset))
    ensures forall sec :: multiset(AllParams(Section(sorted, sec))) == multiset(AllParams(Section(cs, sec)))
  {
    var w, o, l, f := Section(sorted, QsWhere), Section(sorted, QsOrderBy), Section(sorted, QsLimit), Section(sorted, QsOffset);
    SortedSplit(sorted);
    FlatMapAppend(w + o + l, f, ParamsOf);
    FlatMapAppend(w + o, l, ParamsOf);
    FlatMapAppend(w, o, ParamsOf);
    forall sec
      ensures multiset(AllParams(Section(sorted, sec))) == multiset(AllParams(Section(cs, sec)))
    {
      SectionPermutation(sorted, cs, sec);
      FlatMapPermutation(Section(sorted, sec), Section(cs, sec), ParamsOf);
    }
  }

  /** The WHERE clause holds the WHERE fragments of the input, each once,
      whatever order the conditions were given in. */
  lemma WhereFragmentsPermuted(cs: seq<Condition>, sorted: seq<Condition>)
    requires IsSortingOf(sorted, cs)
    ensures multiset(Queries(Section(sorted, QsWhere))) == multiset(Queries(Section(cs, QsWhere)))
  {
    SectionPermutation(sorted, cs, QsWhere);
    FlatMapPermutation(Section(sorted, QsWhere), Section(cs, QsWhere), QueryOf);
  }

  // ---------------------------------------------------------------------------
  // Placeholders and parameters

  /** At most one LIMIT and at most one OFFSET condition. */
  predicate SingleLimitOffset(cs: seq<Condition>) {
    |Section(cs, QsLimit)| <= 1 && |Section(cs, QsOffset)| <= 1
  }

  /** The conditions the constructors can build a statement from whose
      placeholders and parameters agree: every fragment balanced, every
      ORDER BY without parameters, one LIMIT and one OFFSET at most. */
  predicate Bindable(cs: seq<Condition>) {
    && (forall c :: c in cs ==> Balanced(c))
    && (forall c :: c in cs && c.section == QsOrderBy ==> c.params == [])
    && SingleLimitOffset(cs)
  }

  /** The parameters of the last condition of a section, or none. */
  function LastParams(s: seq<Condition>, sec: QuerySection): seq<Value> {
    var sub := Section(s, sec);
    if |sub| == 0 then [] else sub[|sub| - 1].params
  }

  /** The parameters the assembled text has placeholders for: those of every
      WHERE condition and of the last ORDER BY, LIMIT and OFFSET condition. */
  function BoundParams(s: seq<Condition>): seq<Value> {
    AllParams(Section(s, QsWhere)) + LastParams(s, QsOrderBy) + LastParams(s, QsLimit) + LastParams(s, QsOffset)
  }

  lemma {:induction false} QueriesLength(s: seq<Condition>)
    ensures |Queries(s)| == |s|
    decreases |s|
  {
    if |s| > 0 {
      QueriesLength(s[..|s| - 1]);
    }
  }

  lemma SectionMember(s: seq<Condition>, sec: QuerySection)
    ensures forall c :: c in Section(s, sec) ==> c in s && c.section == sec
  {
    SectionCount(s, sec);
    forall c | c in Section(s, sec)
      ensures c in s && c.section == sec
    {
      assert multiset(Section(s, sec))[c] > 0;
    }
  }

  /** The WHERE fragments of balanced conditions, joined by " AND ", hold
      one placeholder per WHERE parameter. */
  lemma {:induction false} WhereCount(w: seq<Condition>)
    requires forall c :: c in w ==> Balanced(c)
    ensures CountChar(Join(Queries(w), " AND "), '?') == |AllParams(w)|
    decreases |w|
  {
    if |w| > 0 {
      var init, x := w[..|w| - 1], w[|w| - 1];
      assert w == init + [x];
      assert x in w;
      FlatMapSnoc(init, x, QueryOf);
      FlatMapSnoc(init, x, ParamsOf);
      QueriesLength(init);
      WhereCount(init);
      var ps := Queries(init) + [x.query];
      assert ps[..|ps| - 1] == Queries(init);
      if |init| > 0 {
        var j := Join(Queries(init), " AND ");
        assert Join(ps, " AND ") == j + " AND " + x.query;
        CountCharAbsent(" AND ", '?');
        CountCharAppend(j, " AND ", '?');
        CountCharAppend(j + " AND ", x.query, '?');
      }
    }
  }

  /** The clause of a section's last fragment holds one placeholder per
      parameter of that condition. */
  lemma ClauseCount(s: seq<Condition>, sec: QuerySection)
    requires forall c :: c in Section(s, sec) ==> Balanced(c)
    ensures CountChar(Clause(LastQuery(s, sec)), '?') == |LastParams(s, sec)|
  {
    var sub := Section(s, sec);
    if |sub| > 0 && sub[|sub| - 1].query != "" {
      var c := sub[|sub| - 1];
      assert c in sub;
      CountCharAbsent(" ", '?');
      CountCharAppend(" ", c.query, '?');
    } else if |sub| > 0 {
      assert sub[|sub| - 1] in sub;
    }
  }

  /** Every placeholder of the assembled text has its parameter: it holds
      as many placeholders as `BoundParams` has values, for any list of
      balanced conditions in any order. */
  lemma BoundParamsCount(s: seq<Condition>)
    requires forall c :: c in s ==> Balanced(c)
    ensures CountChar(QueryText(s), '?') == |BoundParams(s)|
  {
    var w := Section(s, QsWhere);
    SectionMember(s, QsWhere);
    SectionMember(s, QsOrderBy);
    SectionMember(s, QsLimit);
    SectionMember(s, QsOffset);
    QueriesLength(w);
    if |w| > 0 {
      var j := Join(Queries(w), " AND ");
      WhereCount(w);
      CountCharAbsent(" WHERE ", '?');
      CountCharAppend(" WHERE ", j, '?');
    }
    ClauseCount(s, QsOrderBy);
    ClauseCount(s, QsLimit);
    ClauseCount(s, QsOffset);
    var a, b, c, d := WhereClause(s), Clause(LastQuery(s, QsOrderBy)), Clause(LastQuery(s, QsLimit)), Clause(LastQuery(s, QsOffset));
    CountCharAppend(a, b, '?');
    CountCharAppend(a + b, c, '?');
    CountCharAppend(a + b + c, d, '?');
  }

  lemma {:induction false} AllParamsNone(s: seq<Condition>)
    requires forall c :: c in s ==> c.params == []
    ensures AllParams(s) == []
    decreases |s|
  {
    if |s| > 0 {
      assert s[..|s| - 1] + [s[|s| - 1]] == s;
      assert s[|s| - 1] in s;
      AllParamsNone(s[..|s| - 1]);
    }
  }

  lemma AllParamsSingle(s: seq<Condition>)
    requires |s| == 1
    ensures AllParams(s) == s[0].params
  {
    assert s[..0] == [];
    assert FlatMap(s, ParamsOf) == FlatMap(s[..0], ParamsOf) + ParamsOf(s[0]);
  }

  /** For a bindable sorted list, the parameters the text has placeholders
      for are all the parameters collected. */
  lemma BoundParamsAll(s: seq<Condition>)
    requires SortedBySection(s) && Bindable(s)
    ensures BoundParams(s) == AllParams(s)
  {
    ParamsGroupedBySection(s, s);
    var o, l, f := Section(s, QsOrderBy), Section(s, QsLimit), Section(s, QsOffset);
    SectionMember(s, QsOrderBy);
    AllParamsNone(o);
    if |o| > 0 {
      assert o[|o| - 1] in o;
    }
    if |l| == 1 {
      AllParamsSingle(l);
    }
    if |f| == 1 {
      AllParamsSingle(f);
    }
  }

  /** The assembled text of a bindable list, however the sort arranges it,
      holds exactly one placeholder per collected parameter. */
  lemma PlaceholdersMatch(cs: seq<Condition>, sorted: seq<Condition>)
    requires IsSortingOf(sorted, cs) && Bindable(cs)
    ensures CountChar(QueryText(sorted), '?') == |AllParams(sorted)|
  {
    assert forall c :: c in sorted ==> c in multiset(cs);
    SectionPermutation(sorted, cs, QsLimit);
    SectionPermutation(sorted, cs, QsOffset);
    assert |Section(sorted, QsLimit)| == |multiset(Section(cs, QsLimit))|;
    assert |Section(sorted, QsOffset)| == |multiset(Section(cs, QsOffset))|;
    BoundParamsCount(sorted);
    BoundParamsAll(sorted);
  }

  /** The section of a two-condition list. */
  lemma SectionPair(a: Condition, b: Condition, sec: QuerySection)
    ensures Section([a, b], sec) == Own(a, sec) + Own(b, sec)
  {
    var s := [a, b];
    assert s[..1] == [a] && [a][..0] == [];
    assert Section([a], sec) == [] + Own(a, sec) == Own(a, sec);
    assert Section(s, sec) == Section([a], sec) + Own(b, sec);
  }

  /** The parameters of a two-condition list. */
  lemma ParamsPair(a: Condition, b: Condition)
    ensures AllParams([a, b]) == a.params + b.params
  {
    var s := [a, b];
    assert s[..1] == [a];
    AllParamsSingle([a]);
    assert FlatMap(s, ParamsOf) == FlatMap([a], ParamsOf) + ParamsOf(b);
  }

  /** The text after two LIMIT conditions holds only the second's fragment. */
  lemma TwoLimitsText(a: Condition, b: Condition)
    requires a.section == QsLimit && b.section == QsLimit
    ensures QueryText([a, b]) == Clause(b.query)
    ensures Balanced(b) ==> CountChar(QueryText([a, b]), '?') == |b.params|
  {
    var s := [a, b];
    SectionPair(a, b, QsWhere);
    SectionPair(a, b, QsOrderBy);
    SectionPair(a, b, QsLimit);
    SectionPair(a, b, QsOffset);
    assert Queries([]) == [];
    var w, o, l, f := WhereClause(s), Clause(LastQuery(s, QsOrderBy)), Clause(LastQuery(s, QsLimit)), Clause(LastQuery(s, QsOffset));
    assert w == "" && o == "" && f == "";
    AppendNil(l);
    if b.query != "" {
      CountCharAbsent(" ", '?');
      CountCharAppend(" ", b.query, '?');
    }
  }

  /** After two LIMIT conditions both parameter lists are collected, but
      only the second's has a placeholder. */
  lemma TwoLimitsParams(a: Condition, b: Condition)
    requires a.section == QsLimit && b.section == QsLimit
    ensures IsSortingOf([a, b], [a, b])
    ensures AllParams([a, b]) == a.params + b.params
    ensures BoundParams([a, b]) == b.params
  {
    var s := [a, b];
    SectionPair(a, b, QsWhere);
    SectionPair(a, b, QsOrderBy);
    SectionPair(a, b, QsLimit);
    SectionPair(a, b, QsOffset);
    ParamsPair(a, b);
    assert AllParams([]) == [];
    assert BoundParams(s) == [] + [] + b.params + [] == b.params;
  }

  /** A second LIMIT loses its placeholder but keeps its parameter: after
      `Limit(u), Limit(v)` the text holds one placeholder, for the value of
      the second, while both values are bound. */
  lemma RepeatedLimitUnbound(u: int, v: int)
    ensures IsSortingOf([Limit(u), Limit(v)], [Limit(u), Limit(v)])
    ensures QueryText([Limit(u), Limit(v)]) == " " + Limit(v).query && Limit(v).query == "LIMIT ?"
    ensures CountChar(QueryText([Limit(u), Limit(v)]), '?') == 1
    ensures AllParams([Limit(u), Limit(v)]) == Limit(u).params + Limit(v).params
    ensures |AllParams([Limit(u), Limit(v)])| == 2
    ensures BoundParams([Limit(u), Limit(v)]) == Limit(v).params
  {
    var a, b := Limit(u), Limit(v);
    TwoLimitsText(a, b);
    TwoLimitsParams(a, b);
  }
}
