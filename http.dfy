/** What the route handlers return: a status code and a JSON body, with
    the body shapes the handlers build; and the `Option` used for values a
    request may lack. */
module Http {
  import opened Jobs

  datatype Option<+T> = None | Some(value: T)

  /** A request field counts as given when it is present and not the empty
      string (JavaScript truthiness of a string). */
  predicate Given(field: Option<string>) {
    field.Some? && field.value != ""
  }

  datatype Body =
    | Message(message: string)
    | JobCreated(message: string, job: Job)
    | UserRegistered(message: string, id: nat, email: string)
    | LoggedIn(message: string, token: string)

  datatype Response = Response(status: nat, body: Body)

  const InternalError := Response(500, Message("Internal Server Error"))
}
