/**
 * `getUserId`: the editor's id as the session cookie holds it. The cookie
 * store itself is not modelled; the caller passes the value stored under the
 * session key "id".
 */
module Session {

  /**
   * The dynamically typed value stored under "id": nothing, a Go `int64`,
   * a string (signup and login store the user's hex object id), or a value
   * of any other type.
   */
  datatype SessionValue = Missing | Int64(n: int) | Text(s: string) | OtherValue

  /**
   * The user id and `true` when the stored value is an `int64`, otherwise
   * `0` and `false`.
   */
  function GetUserId(v: SessionValue): (r: (int, bool))
    ensures r.1 <==> v.Int64?
    ensures r.1 ==> r.0 == v.n
    ensures !r.1 ==> r.0 == 0
  {
    if v.Int64? then (v.n, true) else (0, false)
  }
}
