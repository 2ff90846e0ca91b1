/** Round-robin assignment of handoffs to an organisation's members. */
module RoundRobin {
  import opened Arith
  import opened Text

  /** One handoff record, as far as assignment goes. `open` records, pending or assigned, can
      still be accepted. */
  datatype Record = Record(org: nat, assignee: Option<nat>, assignedAt: Option<int>, open: bool)

  predicate Relevant(r: Record, org: nat) { r.org == org && r.assignee.Some? }

  /** `a` may stand before `b` in ORDER BY assigned_at DESC: PostgreSQL puts missing times first. */
  predicate MayPrecede(a: Record, b: Record) {
    a.assignedAt.None? || (b.assignedAt.Some? && b.assignedAt.value <= a.assignedAt.value)
  }

  /** `last` is what ORDER BY assigned_at DESC LIMIT 1 may return. */
  predicate IsLastAssigned(records: seq<Record>, org: nat, last: Option<Record>) {
    if last.None? then forall r :: r in records ==> !Relevant(r, org)
    else
      && last.value in records && Relevant(last.value, org)
      && forall r :: r in records && Relevant(r, org) ==> MayPrecede(last.value, r)
  }

  function IndexOf(members: seq<nat>, user: nat): (i: Option<nat>)
    ensures i.Some? ==> i.value < |members| && members[i.value] == user && user !in members[..i.value]
    ensures i.None? ==> user !in members
  {
    if members == [] then None
    else if members[0] == user then Some(0)
    else
      var i := IndexOf(members[1..], user);
      if i.None? then None
      else
        assert members[..i.value + 1] == [members[0]] + members[1..][..i.value];
        Some(i.value + 1)
  }

  function Next(i: int, n: nat): (j: nat)
    requires -1 <= i && n > 0
    ensures j < n
    ensures i < n ==> j == if i + 1 == n then 0 else i + 1
  {
    assert i + 1 < n ==> (i + 1) % n == i + 1;
    (i + 1) % n
  }

  function CursorOf(cursor: map<nat, nat>, org: nat): (i: int)
    ensures i >= -1
  {
    if org in cursor then cursor[org] else -1
  }

  /** The member after `user`, or the first one when `user` is none of them. */
  function Successor(members: seq<nat>, user: nat): nat
    requires members != []
  {
    var i := IndexOf(members, user);
    if i.Some? then members[Next(i.value, |members|)] else members[0]
  }

  function Chosen(members: seq<nat>, last: Option<Record>, cursor: int): nat
    requires members != [] && -1 <= cursor
  {
    if last.Some? && last.value.assignee.Some? then Successor(members, last.value.assignee.value)
    else members[Next(cursor, |members|)]
  }

  lemma FirstTurn(n: nat)
    requires n > 0
    ensures Next(-1, n) == 0
  {
  }

  /** The first occurrence of a user in the list. */
  predicate FirstAt(members: seq<nat>, user: nat, i: nat) {
    i < |members| && members[i] == user && user !in members[..i]
  }

  lemma IndexIsFirst(members: seq<nat>, user: nat, i: nat)
    requires FirstAt(members, user, i)
    ensures IndexOf(members, user) == Some(i)
  {
    var k := IndexOf(members, user).value;
    StandsBefore(members, user, k, i);
    StandsBefore(members, user, i, k);
  }

  lemma StandsBefore(members: seq<nat>, user: nat, i: nat, k: nat)
    ensures i < k <= |members| && members[i] == user ==> user in members[..k]
  {
    if i < k <= |members| {
      assert members[..k][i] == members[i];
    }
  }

  /** Who is chosen: after the last assignee the next one in the list, around its end; the first one
      when that assignee is not in the list; and without an assignee the one after the cursor. */
  lemma ChosenExactly(members: seq<nat>, last: Option<Record>, cursor: int, user: nat, i: nat)
    requires members != [] && -1 <= cursor
    requires last.Some? ==> last.value.assignee == Some(user)
    ensures last.None? ==> Chosen(members, last, cursor) == members[(cursor + 1) % |members|]
    ensures last.Some? && user !in members ==> Chosen(members, last, cursor) == members[0]
    ensures last.Some? && FirstAt(members, user, i) ==> Chosen(members, last, cursor) == members[(i + 1) % |members|]
  {
    if FirstAt(members, user, i) {
      IndexIsFirst(members, user, i);
    }
  }

  class Provider {
    var cursor: map<nat, nat>

    constructor ()
      ensures cursor == map[]
    {
      cursor := map[];
    }

    /** Picks the member after the last assignee; the first member when that one left; and the
        member after the cursor when nobody was assigned yet. */
    method Assign(org: nat, members: seq<nat>, records: seq<Record>)
      returns (user: Option<nat>, ghost last: Option<Record>)
      modifies this
      ensures members == [] ==> user.None? && cursor == old(cursor)
      ensures members != [] ==> IsLastAssigned(records, org, last)
      ensures members != [] ==> user == Some(Chosen(members, last, old(CursorOf(cursor, org))))
      ensures members != [] ==> Picks(org, members, records, old(CursorOf(cursor, org)), user.value)
      ensures members != [] && last.Some? ==> cursor == old(cursor)
      ensures members != [] && last.None? ==>
                cursor == old(cursor[org := if org in cursor then (cursor[org] + 1) % |members| else 0])
    {
      last := None;
      if members == [] {
        return None, None;
      }
      var newest: Option<Record> := None;
      for i := 0 to |records|
        invariant IsLastAssigned(records[..i], org, newest)
      {
        assert records[..i + 1] == records[..i] + [records[i]];
        if Relevant(records[i], org) && (newest.None? || !MayPrecede(newest.value, records[i])) {
          newest := Some(records[i]);
        }
      }
      assert records[..|records|] == records;
      last := newest;
      user := Some(Chosen(members, newest, CursorOf(cursor, org)));
      if newest.None? {
        FirstTurn(|members|);
        cursor := cursor[org := Next(CursorOf(cursor, org), |members|)];
      }
    }
  }

  // ---------------------------------------------------------------------------------------

  predicate Distinct(members: seq<nat>) {
    forall i, j :: 0 <= i < j < |members| ==> members[i] != members[j]
  }

  /** `user` is a possible choice given these records; the cursor stands anywhere. */
  ghost predicate Picks(org: nat, members: seq<nat>, table: seq<Record>, cursor: int, user: nat) {
    members != [] && -1 <= cursor && exists last :: IsLastAssigned(table, org, last) && user == Chosen(members, last, cursor)
  }

  /** No record of the organisation has an assignee but no time. A handoff that is created while
      there are no members, and accepted later, is such a record. */
  predicate AllTimed(table: seq<Record>, org: nat) {
    forall r :: r in table && Relevant(r, org) ==> r.assignedAt.Some?
  }

  /** What else happens to the records: an agent accepts an open one, which replaces its assignee
      and keeps its time; one is completed or cancelled; one is created in another organisation. */
  datatype Change = Accept(at: nat, user: nat) | Close(at: nat) | Elsewhere(record: Record)

  predicate MayChange(table: seq<Record>, c: Change, org: nat) {
    match c
    case Accept(i, _) => i < |table| && table[i].open
    case Close(i) => i < |table|
    case Elsewhere(r) => r.org != org
  }

  function Changed(table: seq<Record>, c: Change): seq<Record> {
    match c
    case Accept(i, user) => if i < |table| then table[i := table[i].(assignee := Some(user), open := false)] else table
    case Close(i) => if i < |table| then table[i := table[i].(open := false)] else table
    case Elsewhere(r) => table + [r]
  }

  function ChangedAll(table: seq<Record>, cs: seq<Change>): seq<Record> {
    if cs == [] then table else Changed(ChangedAll(table, cs[..|cs| - 1]), cs[|cs| - 1])
  }

  predicate MayChangeAll(table: seq<Record>, cs: seq<Change>, org: nat) {
    cs == [] || (MayChangeAll(table, cs[..|cs| - 1], org) && MayChange(ChangedAll(table, cs[..|cs| - 1]), cs[|cs| - 1], org))
  }

  /** The assignment is recorded, open, with a later time than any of the organisation before it. */
  predicate IsAssignment(r: Record, org: nat, user: nat, table: seq<Record>) {
    && r.org == org && r.assignee == Some(user) && r.assignedAt.Some? && r.open
    && forall x :: x in table && x.org == org && x.assignedAt.Some? ==> x.assignedAt.value < r.assignedAt.value
  }

  /** One assignment: the records and the cursor it found, the member it chose, the record it wrote,
      and what happened to the records before the next one. */
  datatype Turn = Turn(table: seq<Record>, cursor: int, user: nat, record: Record, changes: seq<Change>)

  function After(t: Turn): seq<Record> { ChangedAll(t.table + [t.record], t.changes) }

  predicate Follows(org: nat, t: Turn, next: Turn) {
    MayChangeAll(t.table + [t.record], t.changes, org) && next.table == After(t)
  }

  /** Consecutive assignments: each is chosen from the records so far, and recorded before the next. */
  ghost predicate IsHistory(org: nat, members: seq<nat>, h: seq<Turn>) {
    && (forall k :: 0 <= k < |h| ==>
          Picks(org, members, h[k].table, h[k].cursor, h[k].user) && IsAssignment(h[k].record, org, h[k].user, h[k].table))
    && (forall k :: 0 <= k < |h| - 1 ==> Follows(org, h[k], h[k + 1]))
  }

  function Users(h: seq<Turn>): (r: seq<nat>)
    ensures |r| == |h| && forall k :: 0 <= k < |h| ==> r[k] == h[k].user
  {
    seq(|h|, k requires 0 <= k < |h| => h[k].user)
  }

  /** Positions served from `i` on, in cyclic order. */
  function Turns(i: nat, n: nat, k: nat): (r: seq<nat>)
    requires i < n
    ensures |r| == k && forall j :: 0 <= j < k ==> r[j] < n
    decreases k
  {
    if k == 0 then [] else [i] + Turns(Next(i, n), n, k - 1)
  }

  function Count(s: seq<nat>, x: nat): nat {
    if s == [] then 0 else (if s[0] == x then 1 else 0) + Count(s[1..], x)
  }

  /** Turns until position `x` is served, starting at `i`. */
  function Wait(i: nat, x: nat, n: nat): (d: nat)
    requires i < n && x < n
    ensures d < n
  {
    if x >= i then x - i else x - i + n
  }

  /** Among `k` consecutive turns, a position at distance `d` is served (k + n - 1 - d) / n times. */
  lemma {:induction false} TurnsOf(i: nat, x: nat, n: nat, k: nat)
    requires i < n && x < n
    ensures Count(Turns(i, n, k), x) == (k + n - 1 - Wait(i, x, n)) / n
    decreases k
  {
    var d := Wait(i, x, n);
    if k == 0 {
      SmallQuotient(n - 1 - d, n);
    } else {
      TurnsOf(Next(i, n), x, n, k - 1);
      assert Turns(i, n, k)[1..] == Turns(Next(i, n), n, k - 1);
      if x == i {
        assert Wait(Next(i, n), x, n) == n - 1;
        DivideStep(k - 1, n);
      } else {
        assert Wait(Next(i, n), x, n) == d - 1;
      }
    }
  }

  /** Any two positions are served equally often, up to one. */
  lemma TurnsAreFair(i: nat, x: nat, y: nat, n: nat, k: nat)
    requires i < n && x < n && y < n
    ensures -1 <= Count(Turns(i, n, k), x) - Count(Turns(i, n, k), y) <= 1
  {
    TurnsOf(i, x, n, k);
    TurnsOf(i, y, n, k);
    QuotientBetween(k, k + n - 1 - Wait(i, x, n), n);
    QuotientBetween(k, k + n - 1 - Wait(i, y, n), n);
  }

  function Served(members: seq<nat>, turns: seq<nat>): (r: seq<nat>)
    requires forall j :: 0 <= j < |turns| ==> turns[j] < |members|
    ensures |r| == |turns| && forall j :: 0 <= j < |turns| ==> r[j] == members[turns[j]]
  {
    seq(|turns|, j requires 0 <= j < |turns| => members[turns[j]])
  }

  lemma ServedUnfolds(members: seq<nat>, i: nat, k: nat)
    requires i < |members| && k > 0
    ensures Served(members, Turns(i, |members|, k)) == [members[i]] + Served(members, Turns(Next(i, |members|), |members|, k - 1))
  {
  }

  // ---------------------------------------------------------------------------------------
  // What changes leave alone

  /** Changes keep the organisation and time of every record, and its assignee if it has one and is
      not accepted by somebody else; what they add belongs to other organisations. */
  lemma {:induction false} ChangesKeep(table: seq<Record>, cs: seq<Change>, org: nat, i: nat)
    requires MayChangeAll(table, cs, org)
    ensures |table| <= |ChangedAll(table, cs)|
    ensures i < |table| ==>
              var r := ChangedAll(table, cs)[i];
              && r.org == table[i].org && r.assignedAt == table[i].assignedAt
              && (table[i].assignee.Some? ==> r.assignee.Some?)
    ensures |table| <= i < |ChangedAll(table, cs)| ==> ChangedAll(table, cs)[i].org != org
  {
    if cs != [] {
      ChangesKeep(table, cs[..|cs| - 1], org, i);
    }
  }

  /** The assignee that the record of turn `t` has when the next one is chosen. */
  function Holder(t: Turn): Option<nat> {
    if |t.table| < |After(t)| then After(t)[|t.table|].assignee else None
  }

  /** The record of the last turn is the newest one, whoever holds it now. */
  lemma NewestIsLast(org: nat, t: Turn, last: Option<Record>)
    requires IsAssignment(t.record, org, t.user, t.table) && MayChangeAll(t.table + [t.record], t.changes, org)
    requires AllTimed(After(t), org) && IsLastAssigned(After(t), org, last)
    ensures |t.table| < |After(t)| && last == Some(After(t)[|t.table|])
  {
    var p, before := |t.table|, t.table + [t.record];
    ChangesKeep(before, t.changes, org, p);
    assert After(t)[p] in After(t) && Relevant(After(t)[p], org);
    assert forall x :: 0 <= x < p ==> before[x] == t.table[x] && t.table[x] in t.table;
    var j :| 0 <= j < |After(t)| && After(t)[j] == last.value;
    ChangesKeep(before, t.changes, org, j);
  }

  lemma SomeoneHolds(org: nat, t: Turn)
    requires IsAssignment(t.record, org, t.user, t.table) && MayChangeAll(t.table + [t.record], t.changes, org)
    ensures Holder(t).Some?
  {
    ChangesKeep(t.table + [t.record], t.changes, org, |t.table|);
  }

  /** So the next choice is the successor of the member who holds it. */
  lemma AfterRecorded(org: nat, members: seq<nat>, t: Turn, cursor: int, user: nat)
    requires IsAssignment(t.record, org, t.user, t.table) && MayChangeAll(t.table + [t.record], t.changes, org)
    requires AllTimed(After(t), org) && Picks(org, members, After(t), cursor, user)
    ensures Holder(t).Some? && user == Successor(members, Holder(t).value)
  {
    SomeoneHolds(org, t);
    var last :| IsLastAssigned(After(t), org, last) && user == Chosen(members, last, cursor);
    NewestIsLast(org, t, last);
  }

  // ---------------------------------------------------------------------------------------
  // One run

  /** Every choice finds a time on every assigned record. */
  ghost predicate TimedThroughout(org: nat, h: seq<Turn>) {
    forall k :: 0 <= k < |h| ==> AllTimed(h[k].table, org)
  }

  /** Whoever holds the record of turn `k` when the next one is chosen has the same successor as the
      member it was given to. */
  predicate KeepsTurn(members: seq<nat>, t: Turn) {
    members != [] && Holder(t).Some? && Successor(members, Holder(t).value) == Successor(members, t.user)
  }

  ghost predicate TurnsKept(members: seq<nat>, h: seq<Turn>) {
    forall k :: 0 <= k < |h| - 1 ==> KeepsTurn(members, h[k])
  }

  lemma SuccessorAt(members: seq<nat>, i: nat)
    requires Distinct(members) && i < |members|
    ensures Successor(members, members[i]) == members[Next(i, |members|)]
  {
  }

  /** The second choice of a run. */
  lemma SecondUser(org: nat, members: seq<nat>, h: seq<Turn>, i: nat)
    requires Distinct(members) && IsHistory(org, members, h) && TimedThroughout(org, h) && |h| > 1
    requires i < |members| && h[0].user == members[i]
    ensures KeepsTurn(members, h[0]) <==> h[1].user == members[Next(i, |members|)]
  {
    assert Follows(org, h[0], h[1]) && AllTimed(h[1].table, org);
    AfterRecorded(org, members, h[0], h[1].cursor, h[1].user);
    SuccessorAt(members, i);
  }

  lemma HistoryTail(org: nat, members: seq<nat>, h: seq<Turn>)
    requires IsHistory(org, members, h) && h != []
    ensures IsHistory(org, members, h[1..])
    ensures TimedThroughout(org, h) ==> TimedThroughout(org, h[1..])
    ensures TurnsKept(members, h) <==> TurnsKept(members, h[1..]) && (|h| > 1 ==> KeepsTurn(members, h[0]))
  {
    var rest := h[1..];
    assert forall k :: 0 <= k < |rest| ==> rest[k] == h[k + 1];
    if TurnsKept(members, rest) && (|h| > 1 ==> KeepsTurn(members, h[0])) {
      forall k | 0 <= k < |h| - 1 ensures KeepsTurn(members, h[k]) {
        assert k > 0 ==> rest[k - 1] == h[k];
      }
    }
  }

  /** Over one run in which every assigned record has a time, with any accepts in between: the
      assignments walk through the members in cyclic order exactly when at each choice the holder of
      the newest record has the same successor as the member it was given to. */
  lemma {:induction false} CyclicExactlyWhen(org: nat, members: seq<nat>, h: seq<Turn>, i: nat)
    requires Distinct(members) && IsHistory(org, members, h) && TimedThroughout(org, h)
    requires i < |members| && (h != [] ==> h[0].user == members[i])
    ensures Users(h) == Served(members, Turns(i, |members|, |h|)) <==> TurnsKept(members, h)
    decreases |h|
  {
    if |h| > 1 {
      SecondUser(org, members, h, i);
      HistoryTail(org, members, h);
      CyclicTail(members, h, i);
      if KeepsTurn(members, h[0]) {
        CyclicExactlyWhen(org, members, h[1..], Next(i, |members|));
      }
    }
  }

  /** A cyclic run is its first turn and a cyclic run from the next member on. */
  lemma CyclicTail(members: seq<nat>, h: seq<Turn>, i: nat)
    requires |h| > 1 && i < |members| && h[0].user == members[i]
    ensures var next, rest := Next(i, |members|), h[1..];
            var onward := Served(members, Turns(next, |members|, |rest|));
            && (Users(h) == Served(members, Turns(i, |members|, |h|)) <==> Users(rest) == onward)
            && (Users(rest) == onward ==> h[1].user == members[next])
  {
    var next, rest := Next(i, |members|), h[1..];
    var onward := Served(members, Turns(next, |members|, |rest|));
    ServedUnfolds(members, i, |h|);
    assert Users(h) == [members[i]] + Users(rest);
    SameHead(members[i], Users(rest), onward);
    assert onward[0] == members[next] && Users(rest)[0] == h[1].user;
  }

  lemma SameHead(x: nat, a: seq<nat>, b: seq<nat>)
    ensures [x] + a == [x] + b <==> a == b
  {
    assert ([x] + a)[1..] == a && ([x] + b)[1..] == b;
  }

  /** The first assignment is to some member. */
  lemma FirstIsMember(org: nat, members: seq<nat>, table: seq<Record>, cursor: int, user: nat) returns (i: nat)
    requires Picks(org, members, table, cursor, user)
    ensures i < |members| && members[i] == user
  {
    var last :| IsLastAssigned(table, org, last) && user == Chosen(members, last, cursor);
    var j: Option<nat> := if last.Some? && last.value.assignee.Some? then IndexOf(members, last.value.assignee.value) else None;
    i := if last.Some? && last.value.assignee.Some?
         then (if j.Some? then Next(j.value, |members|) else 0)
         else Next(cursor, |members|);
  }

  lemma {:induction false} CountServed(members: seq<nat>, turns: seq<nat>, x: nat)
    requires Distinct(members) && x < |members| && forall j :: 0 <= j < |turns| ==> turns[j] < |members|
    ensures Count(Served(members, turns), members[x]) == Count(turns, x)
  {
    if turns != [] {
      CountServed(members, turns[1..], x);
      assert Served(members, turns)[1..] == Served(members, turns[1..]);
    }
  }

  predicate Balanced(users: seq<nat>, u: nat, v: nat) { -1 <= Count(users, u) - Count(users, v) <= 1 }

  predicate FairWindow(members: seq<nat>, users: seq<nat>) {
    forall x, y :: 0 <= x < |members| && 0 <= y < |members| ==> Balanced(users, members[x], members[y])
  }

  /** Every window is fair to every two members. */
  predicate Fair(members: seq<nat>, users: seq<nat>) {
    forall a, b :: 0 <= a <= b <= |users| ==> FairWindow(members, users[a..b])
  }

  lemma WindowOf(org: nat, members: seq<nat>, h: seq<Turn>, a: nat, b: nat)
    requires IsHistory(org, members, h) && a <= b <= |h|
    ensures IsHistory(org, members, h[a..b]) && Users(h[a..b]) == Users(h)[a..b]
    ensures TimedThroughout(org, h) ==> TimedThroughout(org, h[a..b])
    ensures TurnsKept(members, h) ==> TurnsKept(members, h[a..b])
  {
    var w := h[a..b];
    assert forall k :: 0 <= k < |w| ==> w[k] == h[a + k];
    forall k | 0 <= k < |w| - 1 ensures Follows(org, w[k], w[k + 1]) {
      assert Follows(org, h[a + k], h[a + k + 1]);
    }
  }

  /** In any window of such a run, any two members' counts differ by at most one. */
  lemma WindowIsFair(org: nat, members: seq<nat>, h: seq<Turn>, a: nat, b: nat)
    requires Distinct(members) && IsHistory(org, members, h) && TimedThroughout(org, h) && TurnsKept(members, h)
    requires a <= b <= |h|
    ensures FairWindow(members, Users(h)[a..b])
  {
    if a < b {
      var w := h[a..b];
      WindowOf(org, members, h, a, b);
      assert Picks(org, members, w[0].table, w[0].cursor, w[0].user);
      var i := FirstIsMember(org, members, w[0].table, w[0].cursor, w[0].user);
      CyclicExactlyWhen(org, members, w, i);
      var turns := Turns(i, |members|, b - a);
      forall x, y | 0 <= x < |members| && 0 <= y < |members| ensures Balanced(Users(w), members[x], members[y]) {
        CountServed(members, turns, x);
        CountServed(members, turns, y);
        TurnsAreFair(i, x, y, |members|, b - a);
      }
    }
  }

  /** From a fresh organisation the order is members[0], members[1], and so on around, exactly when
      the turns are kept. */
  lemma FreshOrder(org: nat, members: seq<nat>, h: seq<Turn>)
    requires Distinct(members) && IsHistory(org, members, h) && TimedThroughout(org, h) && h != []
    requires (forall r :: r in h[0].table ==> !Relevant(r, org)) && h[0].cursor == -1
    ensures Users(h) == Served(members, Turns(0, |members|, |h|)) <==> TurnsKept(members, h)
  {
    assert Picks(org, members, h[0].table, h[0].cursor, h[0].user);
    CyclicExactlyWhen(org, members, h, 0);
  }

  // ---------------------------------------------------------------------------------------
  // All runs without accepts

  predicate NoAccepts(h: seq<Turn>) {
    forall k, j :: 0 <= k < |h| && 0 <= j < |h[k].changes| ==> !h[k].changes[j].Accept?
  }

  predicate Undisturbed(cs: seq<Change>) { forall j :: 0 <= j < |cs| ==> !cs[j].Accept? }

  /** Without accepts nobody's records change hands. */
  lemma {:induction false} AssigneesStay(table: seq<Record>, cs: seq<Change>, org: nat, i: nat)
    requires MayChangeAll(table, cs, org) && Undisturbed(cs) && i < |table|
    ensures i < |ChangedAll(table, cs)| && ChangedAll(table, cs)[i].assignee == table[i].assignee
  {
    if cs != [] {
      AssigneesStay(table, cs[..|cs| - 1], org, i);
      assert !cs[|cs| - 1].Accept?;
    }
  }

  /** So the records of the organisation stay as they were, and the new one joins them. */
  lemma UndisturbedTurn(org: nat, members: seq<nat>, t: Turn)
    requires members != [] && IsAssignment(t.record, org, t.user, t.table)
    requires MayChangeAll(t.table + [t.record], t.changes, org) && Undisturbed(t.changes)
    ensures KeepsTurn(members, t) && (AllTimed(After(t), org) <==> AllTimed(t.table, org))
  {
    var before := t.table + [t.record];
    AssigneesStay(before, t.changes, org, |t.table|);
    forall i | 0 <= i < |before|
      ensures i < |After(t)| && Relevant(After(t)[i], org) == Relevant(before[i], org) && After(t)[i].assignedAt == before[i].assignedAt
    {
      AssigneesStay(before, t.changes, org, i);
      ChangesKeep(before, t.changes, org, i);
    }
    if AllTimed(t.table, org) {
      forall r | r in After(t) && Relevant(r, org) ensures r.assignedAt.Some? {
        var i :| 0 <= i < |After(t)| && After(t)[i] == r;
        ChangesKeep(before, t.changes, org, i);
        assert i < |t.table| ==> before[i] == t.table[i] && t.table[i] in t.table;
      }
    }
    if AllTimed(After(t), org) {
      forall r | r in t.table && Relevant(r, org) ensures r.assignedAt.Some? {
        var i :| 0 <= i < |t.table| && t.table[i] == r;
        assert before[i] == r && After(t)[i] in After(t);
      }
    }
  }

  lemma {:induction false} UndisturbedRun(org: nat, members: seq<nat>, h: seq<Turn>, k: nat)
    requires IsHistory(org, members, h) && NoAccepts(h) && k < |h|
    ensures AllTimed(h[k].table, org) <==> AllTimed(h[0].table, org)
    ensures TurnsKept(members, h)
    decreases k
  {
    if k > 0 {
      UndisturbedRun(org, members, h, k - 1);
      assert Follows(org, h[k - 1], h[k]) && Picks(org, members, h[k - 1].table, h[k - 1].cursor, h[k - 1].user);
      UndisturbedTurn(org, members, h[k - 1]);
    } else {
      forall j | 0 <= j < |h| - 1 ensures KeepsTurn(members, h[j]) {
        assert Follows(org, h[j], h[j + 1]) && Picks(org, members, h[j].table, h[j].cursor, h[j].user);
        UndisturbedTurn(org, members, h[j]);
      }
    }
  }

  /** Whatever the cursor was at the start: if every assigned record has a time and nobody accepts a
      handoff, consecutive assignments walk through the members in cyclic order. */
  lemma HistoryIsCyclic(org: nat, members: seq<nat>, h: seq<Turn>, i: nat)
    requires Distinct(members) && IsHistory(org, members, h) && NoAccepts(h) && h != [] && AllTimed(h[0].table, org)
    requires i < |members| && h[0].user == members[i]
    ensures Users(h) == Served(members, Turns(i, |members|, |h|))
  {
    UndisturbedRun(org, members, h, 0);
    forall k | 0 <= k < |h| ensures AllTimed(h[k].table, org) {
      UndisturbedRun(org, members, h, k);
    }
    CyclicExactlyWhen(org, members, h, i);
  }

  /** Every window of every history without accepts that starts from these records is fair. */
  ghost predicate FairWithoutAccepts(org: nat, members: seq<nat>, table: seq<Record>) {
    forall h: seq<Turn> :: IsHistory(org, members, h) && h != [] && h[0].table == table && NoAccepts(h) ==> Fair(members, Users(h))
  }

  /** Every window of every history that starts from these records is fair. */
  ghost predicate AlwaysFair(org: nat, members: seq<nat>, table: seq<Record>) {
    forall h: seq<Turn> :: IsHistory(org, members, h) && h != [] && h[0].table == table ==> Fair(members, Users(h))
  }

  /** One later than every time in the table. */
  function LaterThan(table: seq<Record>): (time: int)
    ensures forall r :: r in table && r.assignedAt.Some? ==> r.assignedAt.value < time
  {
    if table == [] then 0
    else
      var front, r := table[..|table| - 1], table[|table| - 1];
      var time := LaterThan(front);
      assert table == front + [r];
      if r.assignedAt.Some? && r.assignedAt.value >= time then r.assignedAt.value + 1 else time
  }

  function NewRecord(org: nat, user: nat, table: seq<Record>): (r: Record)
    ensures IsAssignment(r, org, user, table)
  {
    Record(org, Some(user), Some(LaterThan(table)), true)
  }

  /** A record without a time stays first in the order, so its assignee's successor is chosen. */
  lemma UntimedIsLast(org: nat, members: seq<nat>, table: seq<Record>, r: Record)
    requires members != [] && r in table && Relevant(r, org) && r.assignedAt.None?
    ensures Picks(org, members, table, -1, Successor(members, r.assignee.value))
  {
    assert IsLastAssigned(table, org, Some(r));
  }

  /** Two turns, with these changes in between. */
  function TwoTurns(org: nat, user: nat, table: seq<Record>, changes: seq<Change>): seq<Turn> {
    var first := Turn(table, -1, user, NewRecord(org, user, table), changes);
    [first, Turn(After(first), -1, user, NewRecord(org, user, After(first)), [])]
  }

  lemma TwoTurnsAreHistory(org: nat, members: seq<nat>, user: nat, table: seq<Record>, changes: seq<Change>)
    requires MayChangeAll(table + [NewRecord(org, user, table)], changes, org)
    requires Picks(org, members, table, -1, user)
    requires Picks(org, members, ChangedAll(table + [NewRecord(org, user, table)], changes), -1, user)
    ensures var h := TwoTurns(org, user, table, changes); IsHistory(org, members, h) && h[0].table == table
  {
    var h := TwoTurns(org, user, table, changes);
    assert h[0].record == NewRecord(org, user, table) && h[1].table == After(h[0]);
    assert Follows(org, h[0], h[1]);
    forall k | 0 <= k < |h|
      ensures Picks(org, members, h[k].table, h[k].cursor, h[k].user) && IsAssignment(h[k].record, org, h[k].user, h[k].table)
    {
      assert k == 0 || k == 1;
    }
  }

  /** From a record with an assignee and no time, two assignments in a row to the same member. */
  lemma UntimedRecordRepeats(org: nat, members: seq<nat>, table: seq<Record>, r: Record)
    requires members != [] && r in table && Relevant(r, org) && r.assignedAt.None?
    ensures var h := TwoTurns(org, Successor(members, r.assignee.value), table, []);
            IsHistory(org, members, h) && h[0].table == table && NoAccepts(h)
  {
    var user := Successor(members, r.assignee.value);
    var second := table + [NewRecord(org, user, table)];
    assert ChangedAll(second, []) == second && r in second;
    UntimedIsLast(org, members, table, r);
    UntimedIsLast(org, members, second, r);
    TwoTurnsAreHistory(org, members, user, table, []);
  }

  lemma TwoInARow(u: nat, v: nat)
    requires u != v
    ensures !Balanced([u, u], u, v)
  {
    assert [u, u][1..] == [u] && [u][1..] == [];
    assert Count([u], u) == 1 && Count([u], v) == 0;
    assert Count([u, u], u) == 2 && Count([u, u], v) == 0;
  }

  /** Two turns of one member are not fair when there is another. */
  lemma RepeatIsUnfair(org: nat, members: seq<nat>, table: seq<Record>, changes: seq<Change>, x: nat)
    requires Distinct(members) && |members| >= 2 && x < |members|
    ensures !Fair(members, Users(TwoTurns(org, members[x], table, changes)))
  {
    var h, y := TwoTurns(org, members[x], table, changes), if x == 0 then 1 else 0;
    TwoInARow(members[x], members[y]);
    assert Users(h) == [members[x], members[x]] && Users(h)[0..2] == Users(h);
    assert !FairWindow(members, Users(h)[0..2]);
  }

  lemma SuccessorIsMember(members: seq<nat>, user: nat) returns (x: nat)
    requires members != []
    ensures x < |members| && Successor(members, user) == members[x]
  {
    var i := IndexOf(members, user);
    x := if i.Some? then Next(i.value, |members|) else 0;
  }

  /** As long as nobody accepts a handoff, every window is fair exactly when there are fewer than two
      members, or every record of the organisation that has an assignee also has a time. */
  lemma FairExactlyWhen(org: nat, members: seq<nat>, table: seq<Record>)
    requires Distinct(members)
    ensures FairWithoutAccepts(org, members, table) <==> |members| < 2 || AllTimed(table, org)
  {
    if |members| < 2 {
      forall h: seq<Turn> ensures Fair(members, Users(h)) {
      }
    } else if AllTimed(table, org) {
      forall h: seq<Turn> | IsHistory(org, members, h) && h != [] && h[0].table == table && NoAccepts(h)
        ensures Fair(members, Users(h))
      {
        forall k | 0 <= k < |h| ensures AllTimed(h[k].table, org) {
          UndisturbedRun(org, members, h, k);
        }
        UndisturbedRun(org, members, h, 0);
        forall a, b | 0 <= a <= b <= |h| ensures FairWindow(members, Users(h)[a..b]) {
          WindowIsFair(org, members, h, a, b);
        }
      }
    } else {
      var r :| r in table && Relevant(r, org) && r.assignedAt.None?;
      UntimedRecordRepeats(org, members, table, r);
      var x := SuccessorIsMember(members, r.assignee.value);
      RepeatIsUnfair(org, members, table, [], x);
    }
  }

  // ---------------------------------------------------------------------------------------
  // All runs

  /** The query has an answer. */
  lemma {:induction false} SomeLast(table: seq<Record>, org: nat) returns (last: Option<Record>)
    ensures IsLastAssigned(table, org, last)
  {
    last := None;
    if table != [] {
      var front, r := table[..|table| - 1], table[|table| - 1];
      last := SomeLast(front, org);
      assert table == front + [r];
      if Relevant(r, org) && (last.None? || !MayPrecede(last.value, r)) {
        last := Some(r);
      }
    }
  }

  /** The member whose successor is `members[x]`. */
  function Before(x: nat, n: nat): nat
    requires x < n
  {
    if x == 0 then n - 1 else x - 1
  }

  /** A handoff is assigned to a member, the member before accepts it, and the next one is assigned
      to the same member again, although every assigned record has a time. */
  lemma AcceptRepeats(org: nat, members: seq<nat>, table: seq<Record>) returns (x: nat, changes: seq<Change>)
    requires Distinct(members) && members != [] && AllTimed(table, org)
    ensures x < |members| && changes == [Accept(|table|, members[Before(x, |members|)])]
    ensures var h := TwoTurns(org, members[x], table, changes);
            IsHistory(org, members, h) && h[0].table == table && TimedThroughout(org, h)
  {
    var last := SomeLast(table, org);
    assert Picks(org, members, table, -1, Chosen(members, last, -1));
    x := FirstIsMember(org, members, table, -1, Chosen(members, last, -1));
    var b, r := Before(x, |members|), NewRecord(org, members[x], table);
    changes := [Accept(|table|, members[b])];
    AcceptedTable(org, table, r, members[b]);
    AcceptedIsLast(org, members, table, r, members[x], b);
    assert Next(b, |members|) == x;
    TwoTurnsAreHistory(org, members, members[x], table, changes);
  }

  /** The table after one accept of the newest record. */
  lemma AcceptedTable(org: nat, table: seq<Record>, r: Record, user: nat)
    requires r.open
    ensures var cs := [Accept(|table|, user)];
            && MayChangeAll(table + [r], cs, org)
            && ChangedAll(table + [r], cs) == table + [r.(assignee := Some(user), open := false)]
  {
    var cs, before := [Accept(|table|, user)], table + [r];
    assert cs[..0] == [];
    assert ChangedAll(before, []) == before && MayChangeAll(before, [], org);
    assert before[|table|] == r;
    assert MayChange(before, cs[0], org);
  }

  /** It is still the newest one, and its new holder's successor is chosen. */
  lemma AcceptedIsLast(org: nat, members: seq<nat>, table: seq<Record>, r: Record, user: nat, b: nat)
    requires Distinct(members) && b < |members| && AllTimed(table, org) && IsAssignment(r, org, user, table)
    ensures var after := table + [r.(assignee := Some(members[b]), open := false)];
            AllTimed(after, org) && Picks(org, members, after, -1, members[Next(b, |members|)])
  {
    var newest := r.(assignee := Some(members[b]), open := false);
    var after := table + [newest];
    SuccessorAt(members, b);
    assert IsLastAssigned(after, org, Some(newest));
  }

  /** With accepts, every window is fair exactly when there are fewer than two members. */
  lemma FairWithAcceptsExactlyWhen(org: nat, members: seq<nat>, table: seq<Record>)
    requires Distinct(members)
    ensures AlwaysFair(org, members, table) <==> |members| < 2
  {
    if |members| < 2 {
      forall h: seq<Turn> ensures Fair(members, Users(h)) {
      }
    } else if AllTimed(table, org) {
      var x, changes := AcceptRepeats(org, members, table);
      RepeatIsUnfair(org, members, table, changes, x);
    } else {
      FairExactlyWhen(org, members, table);
    }
  }

  /** Records that have an assignee, or may still get one, have a time. */
  predicate WillBeTimed(table: seq<Record>, org: nat) {
    forall r :: r in table && r.org == org && (r.assignee.Some? || r.open) ==> r.assignedAt.Some?
  }

  lemma {:induction false} ChangesKeepTimed(table: seq<Record>, cs: seq<Change>, org: nat)
    requires MayChangeAll(table, cs, org) && WillBeTimed(table, org)
    ensures WillBeTimed(ChangedAll(table, cs), org)
  {
    if cs != [] {
      var before, c := ChangedAll(table, cs[..|cs| - 1]), cs[|cs| - 1];
      ChangesKeepTimed(table, cs[..|cs| - 1], org);
      forall r | r in Changed(before, c) && r.org == org && (r.assignee.Some? || r.open) ensures r.assignedAt.Some? {
        var i :| 0 <= i < |Changed(before, c)| && Changed(before, c)[i] == r;
        assert i < |before| ==> before[i] in before;
      }
    }
  }

  /** If that holds at the start, every choice of the run finds all times. */
  lemma {:induction false} TimedFromTheStart(org: nat, members: seq<nat>, h: seq<Turn>, k: nat)
    requires IsHistory(org, members, h) && k < |h| && WillBeTimed(h[0].table, org)
    ensures WillBeTimed(h[k].table, org) && AllTimed(h[k].table, org)
    decreases k
  {
    if k > 0 {
      var t := h[k - 1];
      TimedFromTheStart(org, members, h, k - 1);
      assert Follows(org, t, h[k]) && IsAssignment(t.record, org, t.user, t.table);
      ChangesKeepTimed(t.table + [t.record], t.changes, org);
    }
  }

  // ---------------------------------------------------------------------------------------
  // Fairness of one run

  /** Nobody is served twice within as many turns as there are members. */
  predicate SpreadOut(users: seq<nat>, n: nat) {
    forall j, k :: 0 <= j < k < |users| && k - j < n ==> users[j] != users[k]
  }

  lemma {:induction false} CountAtMost(s: seq<nat>, x: nat)
    ensures x !in s ==> Count(s, x) == 0
    ensures x in s ==> Count(s, x) >= 1
    ensures (forall j, k :: 0 <= j < k < |s| ==> s[j] != s[k]) ==> Count(s, x) <= 1
  {
    if s != [] {
      CountAtMost(s[1..], x);
    }
  }

  lemma {:induction false} CountConcat(a: seq<nat>, b: seq<nat>, x: nat)
    ensures Count(a + b, x) == Count(a, x) + Count(b, x)
  {
    if a == [] {
      assert a + b == b;
    } else {
      CountConcat(a[1..], b, x);
      assert (a + b)[1..] == a[1..] + b;
    }
  }

  ghost function Elements(s: seq<nat>): set<nat> { set x | x in s }

  lemma {:induction false} DistinctSize(s: seq<nat>)
    ensures |Elements(s)| <= |s|
    ensures (forall j, k :: 0 <= j < k < |s| ==> s[j] != s[k]) <==> |Elements(s)| == |s|
  {
    if s != [] {
      var rest := s[1..];
      DistinctSize(rest);
      assert Elements(s) == {s[0]} + Elements(rest);
      if forall j, k :: 0 <= j < k < |rest| ==> rest[j] != rest[k] {
        assert s[0] !in rest ==> forall j, k :: 0 <= j < k < |s| ==> s[j] != s[k];
      } else {
        var j, k :| 0 <= j < k < |rest| && rest[j] == rest[k];
        assert s[j + 1] == s[k + 1];
      }
    }
  }

  /** As many different members as there are: all of them. */
  lemma AllServed(members: seq<nat>, s: seq<nat>, x: nat)
    requires Distinct(members) && |s| == |members| && x < |members|
    requires (forall u :: u in s ==> u in members) && forall j, k :: 0 <= j < k < |s| ==> s[j] != s[k]
    ensures Count(s, members[x]) == 1
  {
    DistinctSize(members);
    DistinctSize(s);
    SameSize(Elements(s), Elements(members));
    assert members[x] in Elements(members);
    CountAtMost(s, members[x]);
  }

  lemma SameSize(a: set<nat>, b: set<nat>)
    requires a <= b && |a| == |b|
    ensures a == b
  {
    assert b == a + (b - a);
  }

  /** In a spread-out sequence every member is served once per round, and at most once more. */
  lemma {:induction false} SpreadCount(members: seq<nat>, s: seq<nat>, x: nat)
    requires Distinct(members) && x < |members| && (forall u :: u in s ==> u in members) && SpreadOut(s, |members|)
    ensures |s| / |members| <= Count(s, members[x]) <= |s| / |members| + 1
    decreases |s|
  {
    var n := |members|;
    if |s| < n {
      SmallQuotient(|s|, n);
      CountAtMost(s, members[x]);
    } else {
      var round, rest := s[..n], s[n..];
      assert forall k :: 0 <= k < |rest| ==> rest[k] == s[n + k];
      AllServed(members, round, x);
      SpreadCount(members, rest, x);
      CountConcat(round, rest, members[x]);
      assert round + rest == s;
      DivideStep(|rest|, n);
    }
  }

  /** A member served twice within that many turns leaves another one out. */
  lemma RepeatLeavesOneOut(members: seq<nat>, s: seq<nat>) returns (x: nat, y: nat)
    requires Distinct(members) && 2 <= |s| <= |members| && s[0] == s[|s| - 1] && s[0] in members
    ensures x < |members| && y < |members| && !Balanced(s, members[x], members[y])
  {
    x :| 0 <= x < |members| && members[x] == s[0];
    DistinctSize(members);
    DistinctSize(s);
    if forall u :: u in members ==> u in s {
      assert Elements(members) <= Elements(s);
      SmallerSet(Elements(members), Elements(s));
      assert false;
    }
    var u :| u in members && u !in s;
    y :| 0 <= y < |members| && members[y] == u;
    CountAtMost(s, u);
    CountAtMost(s[1..], s[0]);
    assert s[0] == s[1..][|s| - 2];
  }

  lemma {:induction false} SmallerSet(a: set<nat>, b: set<nat>)
    requires a <= b
    ensures |a| <= |b|
  {
    assert b == a + (b - a);
  }

  lemma SpreadIsFair(members: seq<nat>, users: seq<nat>, a: nat, b: nat)
    requires Distinct(members) && (forall u :: u in users ==> u in members) && SpreadOut(users, |members|) && a <= b <= |users|
    ensures FairWindow(members, users[a..b])
  {
    SpreadWindow(users, |members|, a, b);
    forall x, y | 0 <= x < |members| && 0 <= y < |members| ensures Balanced(users[a..b], members[x], members[y]) {
      SpreadCount(members, users[a..b], x);
      SpreadCount(members, users[a..b], y);
    }
  }

  lemma FairExactlyWhenSpread(members: seq<nat>, users: seq<nat>)
    requires Distinct(members) && forall u :: u in users ==> u in members
    ensures Fair(members, users) <==> SpreadOut(users, |members|)
  {
    if SpreadOut(users, |members|) {
      forall a, b | 0 <= a <= b <= |users| ensures FairWindow(members, users[a..b]) {
        SpreadIsFair(members, users, a, b);
      }
    } else {
      var j, k :| 0 <= j < k < |users| && k - j < |members| && users[j] == users[k];
      var window := users[j..k + 1];
      var x, y := RepeatLeavesOneOut(members, window);
      assert !FairWindow(members, window);
    }
  }

  /** Every window of a run is fair exactly when nobody is served twice within as many turns as
      there are members. */
  lemma RunIsFairExactlyWhen(org: nat, members: seq<nat>, h: seq<Turn>)
    requires Distinct(members) && IsHistory(org, members, h)
    ensures Fair(members, Users(h)) <==> SpreadOut(Users(h), |members|)
  {
    forall k | 0 <= k < |h| ensures h[k].user in members {
      var i := FirstIsMember(org, members, h[k].table, h[k].cursor, h[k].user);
    }
    FairExactlyWhenSpread(members, Users(h));
  }

  lemma SpreadWindow(users: seq<nat>, n: nat, a: nat, b: nat)
    requires SpreadOut(users, n) && a <= b <= |users|
    ensures SpreadOut(users[a..b], n)
  {
    assert forall k :: 0 <= k < b - a ==> users[a..b][k] == users[a + k];
  }

  // ---------------------------------------------------------------------------------------
  // Records without a time

  /** The records without a time all have this assignee. */
  predicate UntimedAre(table: seq<Record>, org: nat, assignee: nat) {
    forall r :: r in table && Relevant(r, org) && r.assignedAt.None? ==> r.assignee == Some(assignee)
  }

  lemma UntimedAfter(org: nat, t: Turn, assignee: nat)
    requires IsAssignment(t.record, org, t.user, t.table)
    requires MayChangeAll(t.table + [t.record], t.changes, org) && Undisturbed(t.changes)
    requires UntimedAre(t.table, org, assignee)
    ensures UntimedAre(After(t), org, assignee)
  {
    var before := t.table + [t.record];
    forall r | r in After(t) && Relevant(r, org) && r.assignedAt.None? ensures r.assignee == Some(assignee) {
      var i :| 0 <= i < |After(t)| && After(t)[i] == r;
      ChangesKeep(before, t.changes, org, i);
      AssigneesStay(before, t.changes, org, i);
      assert i < |t.table| ==> before[i] == t.table[i] && t.table[i] in t.table;
    }
  }

  lemma {:induction false} UntimedStay(org: nat, members: seq<nat>, h: seq<Turn>, assignee: nat, k: nat)
    requires IsHistory(org, members, h) && NoAccepts(h) && k < |h|
    requires UntimedAre(h[0].table, org, assignee) && !AllTimed(h[0].table, org)
    ensures UntimedAre(h[k].table, org, assignee) && !AllTimed(h[k].table, org)
    decreases k
  {
    if k > 0 {
      UntimedStay(org, members, h, assignee, k - 1);
      assert Follows(org, h[k - 1], h[k]);
      UntimedAfter(org, h[k - 1], assignee);
      UndisturbedRun(org, members, h, k);
    }
  }

  /** Then every later handoff goes to the member after that assignee, until somebody accepts one. */
  lemma UntimedRecordSticks(org: nat, members: seq<nat>, h: seq<Turn>, assignee: nat, k: nat)
    requires IsHistory(org, members, h) && NoAccepts(h) && k < |h|
    requires UntimedAre(h[0].table, org, assignee) && !AllTimed(h[0].table, org)
    ensures members != [] && h[k].user == Successor(members, assignee)
  {
    UntimedStay(org, members, h, assignee, k);
    assert Picks(org, members, h[k].table, h[k].cursor, h[k].user);
    var last :| IsLastAssigned(h[k].table, org, last) && h[k].user == Chosen(members, last, h[k].cursor);
    var r :| r in h[k].table && Relevant(r, org) && r.assignedAt.None?;
    assert last.Some? && MayPrecede(last.value, r);
  }
}
