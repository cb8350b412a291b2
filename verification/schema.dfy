/** The database: the `users`, `desks`, `reservations` and `booking_metrics` tables with
    their keys, uniqueness constraints and the foreign-key delete rules. */
module Schema {
  import opened Wrappers

  /** `users.role`: the text enum "user" | "admin". */
  datatype Role = UserRole | AdminRole

  /** A `users` row; `role` is nullable and defaults to "user". */
  datatype User = User(
    id: string,
    firstName: string,
    lastName: string,
    role: Option<Role>,
    autoReservationsCronId: Option<string>)

  /** The row an insert that names only id and names produces: the role takes its default. */
  function NewUser(id: string, firstName: string, lastName: string): (u: User)
    ensures u.id == id && u.firstName == firstName && u.lastName == lastName
    ensures u.role == Some(UserRole) && u.autoReservationsCronId == None
  {
    User(id, firstName, lastName, Some(UserRole), None)
  }

  /** A `desks` row; `userId` is the assigned occupant, if any. */
  datatype Desk = Desk(id: int, row: int, block: int, column: int, userId: Option<string>)

  datatype Position = Position(block: int, row: int, column: int)

  function PositionOf(d: Desk): Position {
    Position(d.block, d.row, d.column)
  }

  /** The primary key of `reservations`: (desk_id, day, week). */
  datatype ResKey = ResKey(deskId: int, day: string, week: int)

  /** The non-key columns of a `reservations` row. */
  datatype Booking = Booking(userId: string, date: Option<string>, dateTimestamp: Option<int>)

  /** A `booking_metrics` row. */
  datatype MetricRow = MetricRow(metricDate: string, totalBookings: int, totalGuestBookings: Option<int>)

  /** The whole store. Users are keyed by id, desks are kept in id (rowid) order, and
      reservations are keyed by their primary key, so at most one reservation exists
      per (desk, day, week) by construction. */
  datatype Db = Db(
    users: map<string, User>,
    desks: seq<Desk>,
    reservations: map<ResKey, Booking>,
    metrics: seq<MetricRow>)

  predicate IdsAscending(desks: seq<Desk>) {
    forall i, j :: 0 <= i < j < |desks| ==> desks[i].id < desks[j].id
  }

  /** `unique().on(block, row, column)`. */
  predicate PositionsUnique(desks: seq<Desk>) {
    forall d1, d2 :: d1 in desks && d2 in desks && d1.id != d2.id ==> PositionOf(d1) != PositionOf(d2)
  }

  function DeskIds(desks: seq<Desk>): set<int> {
    set d | d in desks :: d.id
  }

  /** The table constraints: keys match rows, desk ids and positions are unique, and
      every foreign key points at an existing row. */
  predicate Valid(db: Db) {
    && (forall id :: id in db.users ==> db.users[id].id == id)
    && IdsAscending(db.desks)
    && PositionsUnique(db.desks)
    && (forall d :: d in db.desks && d.userId.Some? ==> d.userId.value in db.users)
    && (forall k :: k in db.reservations ==>
          k.deskId in DeskIds(db.desks) && db.reservations[k].userId in db.users)
  }

  /** The desk with the given id. */
  function FindDesk(desks: seq<Desk>, id: int): (r: Option<Desk>)
    ensures r.Some? ==> r.value in desks && r.value.id == id
    ensures r.None? <==> id !in DeskIds(desks)
  {
    if |desks| == 0 then None
    else if desks[0].id == id then Some(desks[0])
    else
      assert DeskIds(desks) == {desks[0].id} + DeskIds(desks[1..]) by {
        assert forall d :: d in desks <==> d == desks[0] || d in desks[1..];
      }
      FindDesk(desks[1..], id)
  }

  /** The `desk` relation of a user: the first desk, in id order, assigned to them. */
  function DeskOfUser(desks: seq<Desk>, uid: string): (r: Option<Desk>)
    ensures r.Some? ==> r.value in desks && r.value.userId == Some(uid)
    ensures r.None? ==> forall d :: d in desks ==> d.userId != Some(uid)
    ensures r.Some? && IdsAscending(desks) ==>
      forall d :: d in desks && d.userId == Some(uid) ==> r.value.id <= d.id
  {
    if |desks| == 0 then None
    else if desks[0].userId == Some(uid) then Some(desks[0])
    else DeskOfUser(desks[1..], uid)
  }

  /** Deleting a user: `desks.user_id` is set to null (`onDelete: "set null"`). */
  function Unassign(d: Desk, uid: string): Desk {
    if d.userId == Some(uid) then d.(userId := None) else d
  }

  function UnassignAll(desks: seq<Desk>, uid: string): (r: seq<Desk>)
    ensures |r| == |desks|
    ensures forall i :: 0 <= i < |r| ==> r[i] == Unassign(desks[i], uid)
  {
    seq(|desks|, i requires 0 <= i < |desks| => Unassign(desks[i], uid))
  }

  /** Deleting a user unassigns their desks and, by `onDelete: "cascade"`, removes their
      reservations; nothing else changes. */
  function DeleteUser(db: Db, uid: string): (r: Db)
    ensures r.users.Keys == db.users.Keys - {uid}
    ensures forall id :: id in r.users ==> r.users[id] == db.users[id]
    ensures forall d :: d in r.desks ==> d.userId != Some(uid)
    ensures DeskIds(r.desks) == DeskIds(db.desks)
    ensures |r.desks| == |db.desks|
    ensures forall i :: 0 <= i < |db.desks| ==>
      r.desks[i] == db.desks[i].(userId := if db.desks[i].userId == Some(uid) then None else db.desks[i].userId)
    ensures forall k :: k in r.reservations <==> k in db.reservations && db.reservations[k].userId != uid
    ensures forall k :: k in r.reservations ==> r.reservations[k] == db.reservations[k]
    ensures r.metrics == db.metrics
  {
    var desks := UnassignAll(db.desks, uid);
    assert DeskIds(desks) == DeskIds(db.desks) by {
      forall x | x in DeskIds(db.desks) ensures x in DeskIds(desks) {
        var i :| 0 <= i < |db.desks| && db.desks[i].id == x;
        assert desks[i].id == x;
      }
    }
    Db(db.users - {uid},
       desks,
       map k | k in db.reservations && db.reservations[k].userId != uid :: db.reservations[k],
       db.metrics)
  }

  /** Unassigning keeps desk ids and positions, hence their order and uniqueness. */
  lemma UnassignAllKeepsLayout(desks: seq<Desk>, uid: string)
    requires IdsAscending(desks) && PositionsUnique(desks)
    ensures IdsAscending(UnassignAll(desks, uid)) && PositionsUnique(UnassignAll(desks, uid))
  {
    var r := UnassignAll(desks, uid);
    forall i, j | 0 <= i < j < |r| ensures r[i].id < r[j].id {
      assert r[i].id == desks[i].id && r[j].id == desks[j].id;
    }
    forall d1, d2 | d1 in r && d2 in r && d1.id != d2.id
      ensures PositionOf(d1) != PositionOf(d2)
    {
      var i :| 0 <= i < |r| && r[i] == d1;
      var j :| 0 <= j < |r| && r[j] == d2;
      assert desks[i] in desks && desks[j] in desks;
      assert PositionOf(d1) == PositionOf(desks[i]) && PositionOf(d2) == PositionOf(desks[j]);
    }
  }

  lemma DeleteUserKeepsValid(db: Db, uid: string)
    requires Valid(db)
    ensures Valid(DeleteUser(db, uid))
  {
    UnassignAllKeepsLayout(db.desks, uid);
    DeleteUserKeepsReferences(db, uid);
  }

  /** After deleting a user, every desk owner and every booker is still a user, and every
      reservation is still on an existing desk. */
  lemma DeleteUserKeepsReferences(db: Db, uid: string)
    requires forall d :: d in db.desks && d.userId.Some? ==> d.userId.value in db.users
    requires forall k :: k in db.reservations ==>
      k.deskId in DeskIds(db.desks) && db.reservations[k].userId in db.users
    ensures var r := DeleteUser(db, uid);
      && (forall d :: d in r.desks && d.userId.Some? ==> d.userId.value in r.users)
      && (forall k :: k in r.reservations ==> k.deskId in DeskIds(r.desks) && r.reservations[k].userId in r.users)
  {
    var r := DeleteUser(db, uid);
    forall d | d in r.desks && d.userId.Some?
      ensures d.userId.value in r.users
    {
      var i :| 0 <= i < |r.desks| && r.desks[i] == d;
      assert db.desks[i] in db.desks;
    }
    forall k | k in r.reservations
      ensures k.deskId in DeskIds(r.desks) && r.reservations[k].userId in r.users
    {
      assert k in db.reservations;
    }
  }

  /** The desks without the one with id `id`, order kept. */
  function RemoveDesk(desks: seq<Desk>, id: int): (r: seq<Desk>)
    ensures forall d :: d in r <==> d in desks && d.id != id
    ensures IdsAscending(desks) ==> IdsAscending(r)
  {
    if |desks| == 0 then []
    else
      var rest := RemoveDesk(desks[1..], id);
      if desks[0].id == id then rest
      else
        assert IdsAscending(desks) ==> forall d :: d in rest ==> desks[0].id < d.id by {
          if IdsAscending(desks) {
            forall d | d in rest ensures desks[0].id < d.id {
              var j :| 0 <= j < |desks[1..]| && desks[1..][j] == d;
              assert desks[j + 1] == d;
            }
          }
        }
        [desks[0]] + rest
  }

  /** Deleting a desk removes, by `onDelete: "cascade"`, the reservations on it; nothing else changes. */
  function DeleteDesk(db: Db, id: int): (r: Db)
    ensures r.users == db.users && r.metrics == db.metrics
    ensures forall d :: d in r.desks <==> d in db.desks && d.id != id
    ensures forall k :: k in r.reservations <==> k in db.reservations && k.deskId != id
    ensures forall k :: k in r.reservations ==> r.reservations[k] == db.reservations[k]
  {
    Db(db.users,
       RemoveDesk(db.desks, id),
       map k | k in db.reservations && k.deskId != id :: db.reservations[k],
       db.metrics)
  }

  lemma DeleteDeskKeepsValid(db: Db, id: int)
    requires Valid(db)
    ensures Valid(DeleteDesk(db, id))
  {
    var r := DeleteDesk(db, id);
    forall k | k in r.reservations
      ensures k.deskId in DeskIds(r.desks)
    {
      var d :| d in db.desks && d.id == k.deskId;
      assert d in r.desks;
    }
  }
}
