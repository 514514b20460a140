/** The HTTP side of a handler's answer: a status code and a JSON body. */
module Helper {
  import opened Models
  import Validation

  const StatusOK := 200
  const StatusCreated := 201
  const StatusBadRequest := 400
  const StatusNotFound := 404
  const StatusConflict := 409
  const StatusInternalServerError := 500

  /** The JSON key of a message body. The Go code spells it with three s's. */
  const MessageKey := "messsage"

  /** The context key under which the auth guard stores the caller's id. */
  const UserIdKey := "userId"

  /** The bodies the handlers write. `Message(text)` is the object
      `{MessageKey: text}`; `ErrorList` is the validation list; the rest are the
      records (or `{"token": token}`) serialised as they are. */
  datatype Body =
    | Message(text: string)
    | ErrorList(entries: seq<Validation.ErrMessage>)
    | ItemRecord(item: Item)
    | ItemList(items: seq<Item>)
    | UserRecord(user: User)
    | Token(token: string)

  datatype Response = Response(status: int, body: Body)

  /** helper.WriteResponseMessage */
  function Reply(status: int, text: string): Response {
    Response(status, Message(text))
  }
}
