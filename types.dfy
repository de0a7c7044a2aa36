/**
 * The enums, the token payload and the reply shape shared by the backend
 * (src/types.ts and the `c.json(body, status)` convention of every route).
 */
module Types {
  import opened Wrappers

  /** `UserRole` of src/types.ts. */
  datatype Role = Host | User

  /** `RowStatus` of src/types.ts. */
  datatype RowStatus = Normal | Archived

  function RowStatusName(s: RowStatus): string {
    match s
    case Normal => "NORMAL"
    case Archived => "ARCHIVED"
  }

  /** The memo visibilities of src/types.ts; memo rows store them as plain text. */
  const PRIVATE: string := "PRIVATE"
  const PROTECTED: string := "PROTECTED"
  const PUBLIC: string := "PUBLIC"

  /** `JWTPayload`: subject uid, username, role, issued-at and expiry in Unix seconds. */
  datatype Claims = Claims(sub: string, username: string, role: Role, iat: int, exp: Option<int>)

  /** What a route handler answers: a JSON body with status 200, or a `{message}` with an error status. */
  datatype Response<T> = Ok(value: T) | Fail(status: int, message: string)

  /** JavaScript truthiness of an optional string: absent and `''` are falsy. */
  predicate Truthy(s: Option<string>) {
    s.Some? && s.value != ""
  }

  /** `s || fallback` on an optional string. */
  function OrElse(s: Option<string>, fallback: string): string {
    if Truthy(s) then s.value else fallback
  }
}
