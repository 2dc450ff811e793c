/** What a client event handler does with its form state: nothing, an error
    message shown without contacting the server, or one request sent with
    the given body. */
module Ui {
  datatype Outcome<T> = NoCall | Warn(message: string) | Call(body: T)
}
