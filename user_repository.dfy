/**
 * src/repositories/user_repository.py: the repository the services use.
 * The table it reaches through its database session is the field `users`;
 * `nextId` is the primary-key sequence. A write the database refuses
 * raises, and the unit of work rolls back: the rows are left as they were,
 * but a sequence value an INSERT drew is not given back. An id parameter
 * outside the INTEGER range of the `id` column is refused by the driver
 * before any query runs.
 */
module UserRepository {
  import opened Wrappers
  import opened Exceptions
  import opened UserModel

  const NotFoundAfterUpdate := Unhandled("ValueError", "User not found after update")

  class UserRepository {
    var users: map<int, User>
    var nextId: int

    ghost predicate Valid()
      reads this
    {
      TableInvariant(users) && forall id :: id in users ==> InIntegerRange(id) && id < nextId
    }

    constructor ()
      ensures Valid() && users == map[] && nextId == 1
    {
      users := map[];
      nextId := 1;
    }

    /** find_by_id: the row with that id, or none; an id the `id` column cannot hold is a DataError. */
    function FindById(id: int): (r: Result<Option<User>>)
      reads this
      ensures r.Err? <==> !InIntegerRange(id)
      ensures r.Err? ==> r.error == IdOutOfRange
      ensures r.Ok? ==> (r.value.Some? <==> id in users)
      ensures r.Ok? && r.value.Some? ==> r.value.value == users[id]
    {
      if !InIntegerRange(id) then Err(IdOutOfRange)
      else if id in users then Ok(Some(users[id])) else Ok(None)
    }

    /** find_one_or_none: a row matching every column of the filter, or none when no row does. */
    method FindOneOrNone(filter: map<Column, Value>) returns (r: Option<User>)
      requires Valid()
      ensures r.Some? ==> r.value.id in users && users[r.value.id] == r.value && Matches(r.value, filter)
      ensures r.None? ==> forall id :: id in users ==> !Matches(users[id], filter)
    {
      if exists id :: id in users && Matches(users[id], filter) {
        var id :| id in users && Matches(users[id], filter);
        r := Some(users[id]);
      } else {
        r := None;
      }
    }

    /**
     * add: inserts `User(**entity)` under the next id and gives back the
     * stored row. Keys whose value is None are left out of the INSERT, so
     * is_active and role then take their defaults. A value of the wrong
     * type is refused by the driver, before the id is drawn. Otherwise the
     * id is drawn from the sequence before the table checks the row, so a
     * refused INSERT still uses it up; once the INTEGER sequence is spent,
     * no row is inserted.
     */
    method Add(entity: map<Column, Value>) returns (r: Result<User>)
      requires Valid()
      modifies this
      ensures Valid()
      ensures r.Ok? <==> InIntegerRange(old(nextId)) && InsertOk(old(users), DropNone(entity))
      ensures !AllTyped(DropNone(entity)) ==> r == Err(WriteRefused) && users == old(users) && nextId == old(nextId)
      ensures AllTyped(DropNone(entity)) && !InIntegerRange(old(nextId)) ==>
        r == Err(SequenceExhausted) && users == old(users) && nextId == old(nextId)
      ensures r.Ok? ==>
        && r.value == NewRow(old(nextId), DropNone(entity))
        && users == old(users)[old(nextId) := r.value]
        && nextId == old(nextId) + 1
      ensures AllTyped(DropNone(entity)) && InIntegerRange(old(nextId)) && !InsertOk(old(users), DropNone(entity)) ==>
        r == Err(WriteRefused) && users == old(users) && nextId == old(nextId) + 1
    {
      var columns := DropNone(entity);
      if !AllTyped(columns) {
        return Err(WriteRefused);
      }
      if !InIntegerRange(nextId) {
        return Err(SequenceExhausted);
      }
      if !InsertOk(users, columns) {
        nextId := nextId + 1;
        return Err(WriteRefused);
      }
      var row := NewRow(nextId, columns);
      InsertKeepsInvariant(users, nextId, columns);
      users := users[nextId := row];
      nextId := nextId + 1;
      r := Ok(row);
    }

    /**
     * update: writes exactly the keys of `data` into row `id` (no filtering
     * of None: a NULL is refused by the table) and gives back the re-read
     * row; a missing row is a ValueError, an id outside the INTEGER range a
     * DataError.
     */
    method Update(id: int, data: map<Column, Value>) returns (r: Result<User>)
      requires Valid()
      modifies this`users
      ensures Valid()
      ensures !InIntegerRange(id) ==> r == Err(IdOutOfRange) && users == old(users)
      ensures InIntegerRange(id) && id !in old(users) ==> r == Err(NotFoundAfterUpdate) && users == old(users)
      ensures InIntegerRange(id) && id in old(users) && !UpdateOk(old(users), id, data) ==>
        r == Err(WriteRefused) && users == old(users)
      ensures InIntegerRange(id) && id in old(users) && UpdateOk(old(users), id, data) ==>
        && users == old(users)[id := Apply(old(users)[id], data)]
        && r == Ok(users[id])
    {
      if !InIntegerRange(id) {
        return Err(IdOutOfRange);
      }
      if id !in users {
        return Err(NotFoundAfterUpdate);
      }
      if !UpdateOk(users, id, data) {
        return Err(WriteRefused);
      }
      UpdateKeepsInvariant(users, id, data);
      users := users[id := Apply(users[id], data)];
      r := Ok(users[id]);
    }
  }
}
