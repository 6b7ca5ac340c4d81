/** Request fields and controller responses, shared by both controllers. */
module Http {

  /** One field of a request body or query string, as the schema validator sees it:
      not sent, sent but not of the declared type, or sent and well-typed. */
  datatype Field<T> = Absent | Invalid | Present(value: T)
  {
    /** The sent value, or `default` when the field was not sent. */
    function GetOr(default: T): T
    {
      if Present? then value else default
    }
  }

  /** What a controller action answers. `Ok` is a 200 with a JSON body; `Error` is a
      status code with a one-entry JSON object `{key: message}`; `Aborted` is a request
      whose data-store call throws, which the action does not catch, so it writes no
      response and changes nothing. */
  datatype Response<T> = Ok(body: T) | Error(status: nat, key: string, message: string) | Aborted
  {
    /** The same failure, for an action that answers with another body type. */
    function Relay<U>(): Response<U>
      requires !Ok?
    {
      if Error? then Error(status, key, message) else Aborted
    }
  }

  /** The message every action answers, with status 400, when its schema check fails. */
  const ValidationFailed := "Erro de validação"
}
