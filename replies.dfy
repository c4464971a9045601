/** Result shapes shared by the forum's server actions and their callers. */
module Replies {

  datatype Option<+T> = None | Some(value: T)

  /**
   * What an action hands back to its caller: `{ success: true, ... }` carries
   * a value, `{ success: false, message }` carries the message, and `Thrown`
   * stands for a rejected promise (an exception the action did not catch, or
   * a call that never came back).
   */
  datatype Reply<+T> = Ok(value: T) | Fail(message: string) | Thrown

  /** The message every action returns when its schema rejects the input. */
  const InvalidFields: string := "Invalid fields"
}
