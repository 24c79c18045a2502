/**
 * Shapes shared by both route files: optional values, the JSON request body
 * as the validators see it, and the outcome of a handler that may change a
 * table (the reply it sends and the table afterwards).
 */
module Http {

  datatype Option<+T> = None | Some(value: T)

  /**
   * The id of a user as `requireAuth` puts it on the request. Ids come from
   * a serial column; that they are positive is an invariant of the users
   * table (`Auth.WellFormed`), not of this type.
   */
  type UserId = nat

  /** A JSON member value, as far as a `z.string()` check can tell. */
  datatype Value = Str(s: string) | NonString

  /**
   * A parsed request body: a JSON object with its members, or anything else
   * (an array, a number, null), which every object schema rejects.
   */
  datatype Body = Object(members: map<string, Value>) | NotAnObject

  /** The member `key` of an object body; `None` when it is absent. */
  function Member(b: Body, key: string): Option<Value> {
    if b.Object? && key in b.members then Some(b.members[key]) else None
  }

  /**
   * What `z.string().max(n).optional()` makes of one member: an absent member
   * passes as absent, a string of at most `max` characters passes, and
   * anything else fails validation.
   */
  datatype Checked = Absent | Present(s: string) | Invalid

  function CheckOptionalString(v: Option<Value>, max: nat): (c: Checked)
    ensures c.Absent? <==> v.None?
    ensures c.Present? <==> v.Some? && v.value.Str? && |v.value.s| <= max
    ensures c.Present? ==> c.s == v.value.s
  {
    match v
    case None => Absent
    case Some(Str(s)) => if |s| <= max then Present(s) else Invalid
    case Some(NonString) => Invalid
  }

  /** The reply a handler sends together with the table it leaves behind. */
  datatype Outcome<R, S> = Outcome(reply: R, table: S)
}
