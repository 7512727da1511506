/**
 * The shape of a poll: a future in some state is polled once against an environment
 * and answers with its next state, the environment after its side effects, and either
 * `Pending` or `Ready(value)`.
 */
module Polling {

  datatype Poll<T> = Pending | Ready(value: T)

  datatype Stepped<S, E, T> = Stepped(state: S, env: E, poll: Poll<T>)
}
