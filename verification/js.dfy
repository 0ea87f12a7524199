/** JavaScript value conventions shared by every page of the application:
    nullable values and the truthiness of strings. */
module Js {

  /** A value that may be `null` or `undefined` (both are `None`). */
  datatype Option<+T> = None | Some(value: T)

  /** JavaScript truthiness of a nullable string: `null`, `undefined` and `""` are falsy. */
  predicate Truthy(s: Option<string>) {
    s.Some? && s.value != ""
  }

  /** The expression `s || fallback` where `s` is a nullable string. */
  function OrElse(s: Option<string>, fallback: string): string {
    if Truthy(s) then s.value else fallback
  }

  /** The expression `s || null`: the empty string becomes `null`. */
  function EmptyToNull(s: string): Option<string> {
    if s == "" then None else Some(s)
  }
}
