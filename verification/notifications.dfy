/** Marking notifications as read, after authors/apps/notifications/serializers.py:
    the validator that compares the requested ids with the caller's unread
    notifications, and the loop that sets `read_status`. */
module NotificationRead {
  import opened Wrappers
  import opened Text

  /** A row of the notifications table; `read_status` starts out False. */
  datatype Notification = Notification(
    id: int, articleId: int, title: string, body: string, owner: int, readStatus: bool)

  /** Primary keys are unique in the table. */
  predicate DistinctIds(rows: seq<Notification>)
  {
    forall i, j :: 0 <= i < j < |rows| ==> rows[i].id != rows[j].id
  }

  predicate Distinct(xs: seq<int>)
  {
    forall i, j :: 0 <= i < j < |xs| ==> xs[i] != xs[j]
  }

  ghost predicate HasId(rows: seq<Notification>, id: int)
  {
    exists k :: 0 <= k < |rows| && rows[k].id == id
  }

  /** `id` names an unread notification owned by `userId`. */
  ghost predicate Acceptable(rows: seq<Notification>, userId: int, id: int)
  {
    exists k :: 0 <= k < |rows| && rows[k].id == id && rows[k].owner == userId && !rows[k].readStatus
  }

  lemma AcceptableCons(rows: seq<Notification>, userId: int, id: int)
    requires rows != []
    ensures Acceptable(rows, userId, id) <==>
      (rows[0].id == id && rows[0].owner == userId && !rows[0].readStatus) || Acceptable(rows[1..], userId, id)
  {
    if Acceptable(rows[1..], userId, id) {
      var k :| 0 <= k < |rows[1..]| && rows[1..][k].id == id && rows[1..][k].owner == userId && !rows[1..][k].readStatus;
      assert rows[k + 1] == rows[1..][k];
    }
    if Acceptable(rows, userId, id) {
      var k :| 0 <= k < |rows| && rows[k].id == id && rows[k].owner == userId && !rows[k].readStatus;
      if k > 0 { assert rows[1..][k - 1] == rows[k]; }
    }
  }

  /** `list_of_notifications`: the ids of the caller's unread notifications,
      in table order. */
  function UnreadIds(rows: seq<Notification>, userId: int): (ids: seq<int>)
    ensures forall id :: id in ids <==> Acceptable(rows, userId, id)
    ensures DistinctIds(rows) ==> Distinct(ids)
  {
    if rows == [] then []
    else
      var rest := UnreadIds(rows[1..], userId);
      assert forall id :: Acceptable(rows, userId, id) <==>
        (rows[0].id == id && rows[0].owner == userId && !rows[0].readStatus) || Acceptable(rows[1..], userId, id)
      by {
        forall id ensures Acceptable(rows, userId, id) <==>
          (rows[0].id == id && rows[0].owner == userId && !rows[0].readStatus) || Acceptable(rows[1..], userId, id)
        {
          AcceptableCons(rows, userId, id);
        }
      }
      assert DistinctIds(rows) ==> forall id :: Acceptable(rows[1..], userId, id) ==> id != rows[0].id by {
        if DistinctIds(rows) {
          forall id | Acceptable(rows[1..], userId, id) ensures id != rows[0].id {
            var k :| 0 <= k < |rows[1..]| && rows[1..][k].id == id && rows[1..][k].owner == userId && !rows[1..][k].readStatus;
            assert rows[1..][k] == rows[k + 1];
          }
        }
      }
      assert DistinctIds(rows) ==> DistinctIds(rows[1..]);
      if rows[0].owner == userId && !rows[0].readStatus then DistinctCons(rows[0].id, rest); [rows[0].id] + rest else rest
  }

  lemma DistinctCons(x: int, xs: seq<int>)
    ensures Distinct(xs) && x !in xs ==> Distinct([x] + xs)
  {
    if Distinct(xs) && x !in xs {
      forall i, j | 0 <= i < j < |[x] + xs| ensures ([x] + xs)[i] != ([x] + xs)[j] {
        if i == 0 { assert ([x] + xs)[j] == xs[j - 1]; }
        else { assert ([x] + xs)[i] == xs[i - 1] && ([x] + xs)[j] == xs[j - 1]; }
      }
    }
  }

  /** `[i for i in xs if i in ys]`. */
  function Intersect(xs: seq<int>, ys: seq<int>): (r: seq<int>)
    ensures forall i :: i in r <==> i in xs && i in ys
    ensures |r| <= |xs|
    ensures Distinct(xs) ==> Distinct(r)
  {
    if xs == [] then []
    else
      var rest := Intersect(xs[1..], ys);
      assert Distinct(xs) ==> xs[0] !in xs[1..];
      if xs[0] in ys then [xs[0]] + rest else rest
  }

  /** `[i for i in xs if i not in ys]`. */
  function Difference(xs: seq<int>, ys: seq<int>): (r: seq<int>)
    ensures forall i :: i in r <==> i in xs && i !in ys
    ensures |r| <= |xs|
  {
    if xs == [] then []
    else
      var rest := Difference(xs[1..], ys);
      if xs[0] !in ys then [xs[0]] + rest else rest
  }

  /** `Difference` keeps one id at a time, in order: a kept id stays,
      repeats included, and a dropped id leaves nothing. */
  lemma DifferenceSingleton(x: int, ys: seq<int>)
    ensures Difference([x], ys) == if x in ys then [] else [x]
  {
    assert [x][1..] == [];
  }

  /** Filtering distributes over concatenation, so the kept ids appear in
      the order and with the multiplicity they have in the request. */
  lemma {:induction false} DifferenceAppend(a: seq<int>, b: seq<int>, ys: seq<int>)
    ensures Difference(a + b, ys) == Difference(a, ys) + Difference(b, ys)
  {
    if a != [] {
      assert (a + b)[0] == a[0];
      assert (a + b)[1..] == a[1..] + b;
      DifferenceAppend(a[1..], b, ys);
    } else {
      assert a + b == b;
    }
  }

  /** `comparison`: the requested ids the caller may mark, each listed once
      per unread notification. */
  function Comparison(rows: seq<Notification>, userId: int, requested: seq<int>): (r: seq<int>)
    ensures forall i :: i in r <==> i in requested && Acceptable(rows, userId, i)
    ensures DistinctIds(rows) ==> Distinct(r)
  {
    Intersect(UnreadIds(rows, userId), requested)
  }

  /** `non_existent_ids`: the requested ids that are not in `comparison`, in
      request order. */
  function RejectedIds(rows: seq<Notification>, userId: int, requested: seq<int>): (ids: seq<int>)
    ensures forall i :: i in ids <==> i in requested && !Acceptable(rows, userId, i)
    ensures |ids| <= |requested|
  {
    Difference(requested, Comparison(rows, userId, requested))
  }

  /** The text of the error: the list of ids as `str` prints it, between
      fixed words; the list can be read back from it. */
  function RejectionMessage(ids: seq<int>): (m: string)
    ensures |m| >= 25 && m[..4] == "The " && m[|m| - 19..] == " Id(s) do to exist."
    ensures m[4..|m| - 19] == ListToString(ids)
  {
    var m := "The " + ListToString(ids) + " Id(s) do to exist.";
    assert m[4..|m| - 19] == ListToString(ids);
    m
  }

  /** `NotificationsAPIViewSerializer.validate`: the request passes when
      `comparison` is at least as long as the request. */
  function ValidateMarkRead(rows: seq<Notification>, userId: int, requested: seq<int>): (r: Result<seq<int>, string>)
    ensures r.Success? ==> r.value == requested
    ensures r.Failure? ==> r.error == RejectionMessage(RejectedIds(rows, userId, requested))
  {
    var comparison := Comparison(rows, userId, requested);
    var nonExistent := Difference(requested, comparison);
    if |comparison| < |requested| then Failure(RejectionMessage(nonExistent))
    else Success(requested)
  }

  // ------------------------------------------------ counting distinct ids

  function ToSet(xs: seq<int>): set<int>
  {
    set i | i in xs
  }

  lemma {:induction false} ToSetSize(xs: seq<int>)
    ensures |ToSet(xs)| <= |xs|
    ensures Distinct(xs) <==> |ToSet(xs)| == |xs|
  {
    if xs == [] {
      assert ToSet(xs) == {};
    } else {
      ToSetSize(xs[1..]);
      assert ToSet(xs) == {xs[0]} + ToSet(xs[1..]);
      if xs[0] in xs[1..] {
        assert ToSet(xs) == ToSet(xs[1..]);
        var j :| 0 <= j < |xs[1..]| && xs[1..][j] == xs[0];
        assert xs[j + 1] == xs[0];
        assert !Distinct(xs);
      } else {
        assert |ToSet(xs)| == |ToSet(xs[1..])| + 1;
        if Distinct(xs[1..]) {
          forall i, j | 0 <= i < j < |xs| ensures xs[i] != xs[j] {
            if i > 0 { assert xs[i] == xs[1..][i - 1] && xs[j] == xs[1..][j - 1]; }
            else { assert xs[j] in xs[1..]; }
          }
        } else {
          var i, j :| 0 <= i < j < |xs[1..]| && xs[1..][i] == xs[1..][j];
          assert xs[i + 1] == xs[j + 1];
        }
      }
    }
  }

  /** A distinct list whose elements all occur in `ys` is no longer than
      `ys` has distinct elements; equally long exactly when it covers them. */
  lemma DistinctInsideSize(xs: seq<int>, ys: seq<int>)
    requires Distinct(xs)
    requires forall i :: i in xs ==> i in ys
    ensures |xs| <= |ToSet(ys)|
    ensures |xs| == |ToSet(ys)| ==> forall i :: i in ys ==> i in xs
  {
    ToSetSize(xs);
    SubsetSize(ToSet(xs), ToSet(ys));
    if |xs| == |ToSet(ys)| {
      assert ToSet(xs) == ToSet(ys);
      forall i | i in ys ensures i in xs {
        assert i in ToSet(ys);
      }
    }
  }

  lemma SubsetSize(a: set<int>, b: set<int>)
    requires a <= b
    ensures |a| <= |b|
    ensures |a| == |b| ==> a == b
  {
    var rest := b - a;
    assert b == a + rest;
    assert a * rest == {};
    assert |b| == |a| + |rest|;
    if |a| == |b| {
      assert rest == {};
    }
  }

  // ------------------------------------------------------- validation laws

  /** For a request without repeated ids, validation passes exactly when
      every requested id is an unread notification of the caller. */
  lemma ValidateIffAllAcceptable(rows: seq<Notification>, userId: int, requested: seq<int>)
    requires DistinctIds(rows)
    requires Distinct(requested)
    ensures ValidateMarkRead(rows, userId, requested).Success? <==>
      forall i :: i in requested ==> Acceptable(rows, userId, i)
  {
    var comparison := Comparison(rows, userId, requested);
    ToSetSize(requested);
    DistinctInsideSize(comparison, requested);
    if forall i :: i in requested ==> Acceptable(rows, userId, i) {
      assert ToSet(comparison) == ToSet(requested);
      ToSetSize(comparison);
    }
  }

  /** The duplicate quirk: a request that repeats an id is always rejected,
      even when every id in it is acceptable, because `comparison` lists
      each stored notification at most once. */
  lemma RepeatedIdRejected(rows: seq<Notification>, userId: int, requested: seq<int>)
    requires DistinctIds(rows)
    requires !Distinct(requested)
    ensures ValidateMarkRead(rows, userId, requested).Failure?
  {
    var comparison := Comparison(rows, userId, requested);
    ToSetSize(requested);
    DistinctInsideSize(comparison, requested);
  }

  /** Whatever validation accepts names stored notifications. */
  lemma ValidatedIdsExist(rows: seq<Notification>, userId: int, requested: seq<int>)
    requires DistinctIds(rows)
    requires ValidateMarkRead(rows, userId, requested).Success?
    ensures Distinct(requested)
    ensures forall i :: i in requested ==> Acceptable(rows, userId, i) && HasId(rows, i)
  {
    if !Distinct(requested) { RepeatedIdRejected(rows, userId, requested); }
    ValidateIffAllAcceptable(rows, userId, requested);
  }

  /** The test fixture: user 2 owns one unread notification, id 1. */
  function Fixture(): seq<Notification>
  {
    [Notification(1, 1, "title", "body", 2, false)]
  }

  lemma JoinEightNine()
    ensures JoinInts([8, 9]) == "8, 9"
  {
    assert [8, 9][1..] == [9];
    OneDigit(8);
    OneDigit(9);
    assert JoinInts([9]) == "9";
  }

  lemma MessageEmpty()
    ensures RejectionMessage([]) == "The [] Id(s) do to exist."
  {
    ListToStringShape([]);
  }

  lemma MessageEightNine()
    ensures RejectionMessage([8, 9]) == "The [8, 9] Id(s) do to exist."
  {
    JoinEightNine();
    ListToStringShape([8, 9]);
  }

  lemma MessageOne()
    ensures RejectionMessage([1]) == "The [1] Id(s) do to exist."
  {
    OneDigitList(1);
    assert DigitChar(1) == '1';
    assert ListToString([1]) == "[1]";
  }

  lemma FixtureUnread()
    ensures UnreadIds(Fixture(), 2) == [1]
    ensures UnreadIds(Fixture(), 3) == []
  {
    assert Fixture()[1..] == [];
  }

  /** Marking [1] passes for its owner. */
  lemma FixtureAccepted()
    ensures ValidateMarkRead(Fixture(), 2, [1]) == Success([1])
  {
    FixtureUnread();
    assert [1][1..] == [];
  }

  /** Marking [8, 9] fails with the message the tests expect. */
  lemma FixtureMissingIds()
    ensures ValidateMarkRead(Fixture(), 2, [8, 9]) == Failure("The [8, 9] Id(s) do to exist.")
  {
    FixtureUnread();
    assert [8, 9][1..] == [9] && [9][1..] == [] && [1][1..] == [];
    assert Comparison(Fixture(), 2, [8, 9]) == [];
    assert Difference([8, 9], []) == [8, 9];
    MessageEightNine();
  }

  /** Marking [1, 1] fails although id 1 is acceptable, and the message
      lists no missing id. */
  lemma FixtureRepeatedId()
    ensures ValidateMarkRead(Fixture(), 2, [1, 1]) == Failure("The [] Id(s) do to exist.")
  {
    FixtureUnread();
    assert [1, 1][1..] == [1] && [1][1..] == [];
    assert Comparison(Fixture(), 2, [1, 1]) == [1];
    assert Difference([1, 1], [1]) == [];
    MessageEmpty();
  }

  /** Another user cannot mark notification 1. */
  lemma FixtureOtherOwner()
    ensures ValidateMarkRead(Fixture(), 3, [1]) == Failure("The [1] Id(s) do to exist.")
  {
    FixtureUnread();
    assert [1][1..] == [];
    assert Comparison(Fixture(), 3, [1]) == [];
    assert Difference([1], []) == [1];
    MessageOne();
  }

  // ------------------------------------------------------ marking as read

  /** The table after `read_status` is set on every row whose id is listed;
      nothing else about any row changes. */
  function MarkedRead(rows: seq<Notification>, ids: seq<int>): (r: seq<Notification>)
    ensures |r| == |rows|
    ensures forall k :: 0 <= k < |rows| ==>
      r[k] == rows[k].(readStatus := r[k].readStatus) &&
      (r[k].readStatus <==> rows[k].readStatus || rows[k].id in ids)
  {
    seq(|rows|, k requires 0 <= k < |rows| =>
      if rows[k].id in ids then rows[k].(readStatus := true) else rows[k])
  }

  /** Marking the same list twice gives the state marking it once gives. */
  lemma MarkedReadIdempotent(rows: seq<Notification>, ids: seq<int>)
    ensures MarkedRead(MarkedRead(rows, ids), ids) == MarkedRead(rows, ids)
  {
  }

  /** After a successful mark, the same request is rejected: none of its
      ids is unread any more. */
  lemma SecondMarkReadRejected(rows: seq<Notification>, userId: int, requested: seq<int>)
    requires DistinctIds(rows)
    requires ValidateMarkRead(rows, userId, requested).Success?
    requires requested != []
    ensures DistinctIds(MarkedRead(rows, requested))
    ensures ValidateMarkRead(MarkedRead(rows, requested), userId, requested).Failure?
  {
    var after := MarkedRead(rows, requested);
    ValidatedIdsExist(rows, userId, requested);
    assert !Acceptable(after, userId, requested[0]);
    ValidateIffAllAcceptable(after, userId, requested);
  }

  /** `Notifications.objects.get(pk=id)`. */
  function Find(rows: seq<Notification>, id: int): (k: Option<nat>)
    ensures k.Some? ==> k.value < |rows| && rows[k.value].id == id
    ensures k.None? ==> !HasId(rows, id)
  {
    if rows == [] then None
    else if rows[0].id == id then Some(0)
    else match Find(rows[1..], id)
      case None => None
      case Some(k) => Some(k + 1)
  }

  /** The notifications table. */
  class NotificationTable {
    var rows: seq<Notification>

    ghost predicate Valid()
      reads this
    {
      DistinctIds(rows)
    }

    constructor (rows: seq<Notification>)
      requires DistinctIds(rows)
      ensures Valid() && this.rows == rows
    {
      this.rows := rows;
    }

    /** `update_read_status`: for each listed id in turn, fetch the row by
        primary key and save it as read. A missing id raises in `get`,
        leaving the earlier rows saved; `processed` is the number of ids
        handled before that. */
    method UpdateReadStatus(ids: seq<int>) returns (processed: nat)
      requires Valid()
      modifies this
      ensures Valid()
      ensures processed <= |ids|
      ensures rows == MarkedRead(old(rows), ids[..processed])
      ensures forall j :: 0 <= j < processed ==> HasId(old(rows), ids[j])
      ensures processed < |ids| ==> !HasId(old(rows), ids[processed])
    {
      processed := 0;
      while processed < |ids|
        invariant processed <= |ids|
        invariant |rows| == |old(rows)|
        invariant forall k :: 0 <= k < |rows| ==> rows[k].id == old(rows)[k].id
        invariant rows == MarkedRead(old(rows), ids[..processed])
        invariant forall j :: 0 <= j < processed ==> HasId(old(rows), ids[j])
      {
        var found := Find(rows, ids[processed]);
        if found.None? {
          assert !HasId(old(rows), ids[processed]);
          return;
        }
        var k := found.value;
        assert HasId(old(rows), ids[processed]) by { assert old(rows)[k].id == ids[processed]; }
        ghost var before := rows;
        rows := rows[k := rows[k].(readStatus := true)];
        assert ids[..processed + 1] == ids[..processed] + [ids[processed]];
        forall j | 0 <= j < |rows|
          ensures rows[j] == MarkedRead(old(rows), ids[..processed + 1])[j]
        {
          if j != k { assert old(rows)[j].id != ids[processed]; }
        }
        processed := processed + 1;
      }
    }
  }
}
