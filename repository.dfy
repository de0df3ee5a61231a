/**
 * src/repositories/repository.py: the generic repository, at its one model,
 * the `users` table. Unlike UserRepository it drops None values from an
 * update and answers an empty update with the current row.
 */
module Repository {
  import opened Wrappers
  import opened Exceptions
  import opened UserModel

  class Repository {
    var rows: map<int, User>
    var nextId: int

    ghost predicate Valid()
      reads this
    {
      TableInvariant(rows) && forall id :: id in rows ==> InIntegerRange(id) && id < nextId
    }

    constructor ()
      ensures Valid() && rows == map[] && nextId == 1
    {
      rows := map[];
      nextId := 1;
    }

    /** find_by_id: the row with that id, or none; an id the `id` column cannot hold is a DataError. */
    function FindById(id: int): (r: Result<Option<User>>)
      reads this
      ensures r.Err? <==> !InIntegerRange(id)
      ensures r.Err? ==> r.error == IdOutOfRange
      ensures r.Ok? ==> (r.value.Some? <==> id in rows)
      ensures r.Ok? && r.value.Some? ==> r.value.value == rows[id]
    {
      if !InIntegerRange(id) then Err(IdOutOfRange)
      else if id in rows then Ok(Some(rows[id])) else Ok(None)
    }

    /** find_all: every row without a filter, exactly the matching rows with one (row order is not modelled). */
    function FindAll(filter: Option<map<Column, Value>>): (r: set<User>)
      reads this
      ensures filter.None? ==> r == rows.Values
      ensures filter.Some? ==> forall u :: u in r ==> u in rows.Values && Matches(u, filter.value)
      ensures filter.Some? ==> forall id :: id in rows ==> (rows[id] in r <==> Matches(rows[id], filter.value))
    {
      if filter.None? then rows.Values
      else set id | id in rows && Matches(rows[id], filter.value) :: rows[id]
    }

    /**
     * add: as UserRepository's. None values are left out, a wrong-typed
     * value is refused before an id is drawn, and an INSERT the table
     * refuses uses up the id it drew.
     */
    method Add(entity: map<Column, Value>) returns (r: Result<User>)
      requires Valid()
      modifies this
      ensures Valid()
      ensures r.Ok? <==> InIntegerRange(old(nextId)) && InsertOk(old(rows), DropNone(entity))
      ensures !AllTyped(DropNone(entity)) ==> r == Err(WriteRefused) && rows == old(rows) && nextId == old(nextId)
      ensures AllTyped(DropNone(entity)) && !InIntegerRange(old(nextId)) ==>
        r == Err(SequenceExhausted) && rows == old(rows) && nextId == old(nextId)
      ensures r.Ok? ==>
        && r.value == NewRow(old(nextId), DropNone(entity))
        && rows == old(rows)[old(nextId) := r.value]
        && nextId == old(nextId) + 1
      ensures AllTyped(DropNone(entity)) && InIntegerRange(old(nextId)) && !InsertOk(old(rows), DropNone(entity)) ==>
        r == Err(WriteRefused) && rows == old(rows) && nextId == old(nextId) + 1
    {
      var columns := DropNone(entity);
      if !AllTyped(columns) {
        return Err(WriteRefused);
      }
      if !InIntegerRange(nextId) {
        return Err(SequenceExhausted);
      }
      if !InsertOk(rows, columns) {
        nextId := nextId + 1;
        return Err(WriteRefused);
      }
      var row := NewRow(nextId, columns);
      InsertKeepsInvariant(rows, nextId, columns);
      rows := rows[nextId := row];
      nextId := nextId + 1;
      r := Ok(row);
    }

    /**
     * update: the None values are dropped; when nothing is left, nothing is
     * written and the current row (or none) comes back; otherwise exactly
     * the remaining keys are written and the re-read row comes back. An
     * UPDATE of a missing id matches no row; an id outside the INTEGER
     * range is a DataError, as in find_by_id.
     */
    method Update(id: int, d: map<Column, Value>) returns (r: Result<Option<User>>)
      requires Valid()
      modifies this`rows
      ensures Valid()
      ensures DropNone(d) == map[] ==> r == old(FindById(id)) && rows == old(rows)
      ensures DropNone(d) != map[] && !InIntegerRange(id) ==> r == Err(IdOutOfRange) && rows == old(rows)
      ensures DropNone(d) != map[] && InIntegerRange(id) && id !in old(rows) ==> r == Ok(None) && rows == old(rows)
      ensures DropNone(d) != map[] && InIntegerRange(id) && id in old(rows) && !UpdateOk(old(rows), id, DropNone(d)) ==>
        r == Err(WriteRefused) && rows == old(rows)
      ensures DropNone(d) != map[] && InIntegerRange(id) && id in old(rows) && UpdateOk(old(rows), id, DropNone(d)) ==>
        && rows == old(rows)[id := Apply(old(rows)[id], DropNone(d))]
        && r == Ok(Some(rows[id]))
    {
      var updates := DropNone(d);
      if updates == map[] {
        return FindById(id);
      }
      if !InIntegerRange(id) {
        return Err(IdOutOfRange);
      }
      if id !in rows {
        return Ok(None);
      }
      if !UpdateOk(rows, id, updates) {
        return Err(WriteRefused);
      }
      UpdateKeepsInvariant(rows, id, updates);
      rows := rows[id := Apply(rows[id], updates)];
      r := Ok(Some(rows[id]));
    }

    /** soft_delete: the entity's is_active becomes false; nothing else changes. */
    method SoftDelete(id: int)
      requires Valid() && id in rows
      modifies this`rows
      ensures Valid()
      ensures rows == old(rows)[id := old(rows)[id].(isActive := false)]
    {
      rows := rows[id := rows[id].(isActive := false)];
    }
  }
}
