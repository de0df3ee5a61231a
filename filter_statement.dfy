/**
 * src/Models/base.py: get_filter_statement builds the admin listing query
 * from a PaginationFilter. The SELECT is modelled as the record of the
 * clauses it carries.
 */
module FilterStatement {
  import opened Wrappers
  import opened Exceptions
  import opened UserModel

  /** The shape of src/schemes/pagination_filter.py (its Field defaults are not values and are not modelled). */
  datatype PaginationFilter = PaginationFilter(
    page: Option<int>,
    size: Option<int>,
    orderBy: Option<string>,
    orderByDirection: string,
    extra: Option<map<string, Value>>)

  datatype Order = Order(field: string, descending: bool)

  datatype Query = Query(order: Option<Order>, conditions: seq<Condition>,
                         offset: Option<int>, limit: Option<int>)

  /** The attributes of the User model that are columns, so that `getattr(...).desc()` works. */
  predicate IsUserColumn(name: string)
  {
    name in {"id", "email", "first_name", "last_name", "hash_password",
             "is_active", "role", "created_at", "updated_at"}
  }

  function OrderClause(f: PaginationFilter): Result<Option<Order>>
  {
    if f.orderBy.None? || f.orderBy.value == "" then Ok(None)
    else if !IsUserColumn(f.orderBy.value) then Err(Unhandled("AttributeError", f.orderBy.value))
    else Ok(Some(Order(f.orderBy.value, f.orderByDirection == "desc")))
  }

  function WhereClause(f: PaginationFilter): Result<seq<Condition>>
  {
    if f.extra.None? || f.extra.value == map[] then Ok([])
    else GetCondList(f.extra.value)
  }

  /**
   * get_filter_statement: an order clause iff `order_by` is truthy,
   * descending iff the direction is "desc"; the `extra` conditions when
   * there are any; the raw `page` as offset and `size` as limit when given.
   * An unknown field name or an `extra` without "email" raises.
   */
  function GetFilterStatement(f: PaginationFilter): (r: Result<Query>)
    ensures r.Err? <==>
      || (f.orderBy.Some? && f.orderBy.value != "" && !IsUserColumn(f.orderBy.value))
      || (f.extra.Some? && f.extra.value != map[] && "email" !in f.extra.value)
    ensures r.Ok? ==> (r.value.order.Some? <==> f.orderBy.Some? && f.orderBy.value != "")
    ensures r.Ok? && r.value.order.Some? ==>
      r.value.order.value.field == f.orderBy.value
      && (r.value.order.value.descending <==> f.orderByDirection == "desc")
    ensures r.Ok? ==> (r.value.conditions != [] <==>
      f.extra.Some? && "email" in f.extra.value && Truthy(f.extra.value["email"]))
    ensures r.Ok? && r.value.conditions != [] ==> r.value.conditions == [EmailEquals(f.extra.value["email"])]
    ensures r.Ok? ==> r.value.offset == f.page && r.value.limit == f.size
  {
    match OrderClause(f)
    case Err(e) => Err(e)
    case Ok(order) =>
      match WhereClause(f)
      case Err(e) => Err(e)
      case Ok(conditions) => Ok(Query(order, conditions, f.page, f.size))
  }

  /** The query the admin listing endpoint builds: ordering by a column, an email filter that may be None. */
  lemma ListingQuery(orderBy: string, direction: string, email: Value, page: Option<int>, size: Option<int>)
    requires IsUserColumn(orderBy)
    ensures GetFilterStatement(PaginationFilter(page, size, Some(orderBy), direction, Some(map["email" := email])))
      == Ok(Query(Some(Order(orderBy, direction == "desc")),
                  if Truthy(email) then [EmailEquals(email)] else [], page, size))
  {
  }
}
