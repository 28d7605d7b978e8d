/**
 What the admin "new" forms (app/admin/devotionals/new/page.tsx and
 app/admin/payments/new/page.tsx) share: a validation step that either stops
 with a message or yields the JSON payload to POST, and the handling of the
 server's answer.
 */
module SaveReply {
  import opened Text

  /** The result of the checks that run before any request. */
  datatype Check<P> = Invalid(message: string) | Send(payload: P)

  /** The body of a failed reply as `res.json()` reads it: not JSON at all (the
      parse throws), or an object whose `error` field may be absent. */
  datatype ErrorBody = NotJson | Json(error: Option<string>)

  /** The answer to the POST: no answer (fetch throws), or a status class and
      a body. The body is only read when the status is not ok. */
  datatype Reply = NetworkError | Reply(ok: bool, body: ErrorBody)

  datatype Outcome = Navigate(path: string) | ShowError(message: string)

  /** The `try`/`catch` around the POST. A failed reply whose body is not JSON
      throws inside the `try` and so ends in the connection message. */
  function AfterSave(reply: Reply, successPath: string, fallback: string, connectionError: string): (o: Outcome)
    ensures o.Navigate? <==> reply.Reply? && reply.ok
    ensures o.Navigate? ==> o.path == successPath
    ensures reply.Reply? && !reply.ok && reply.body.Json? ==> o == ShowError(OrElse(reply.body.error, fallback))
    ensures reply.NetworkError? || (!reply.ok && reply.body.NotJson?) ==> o == ShowError(connectionError)
  {
    match reply
    case NetworkError => ShowError(connectionError)
    case Reply(ok, body) =>
      if ok then Navigate(successPath)
      else if body.NotJson? then ShowError(connectionError)
      else ShowError(OrElse(body.error, fallback))
  }

  /** With non-empty fixed messages, a failure always shows something. */
  lemma FailureShowsMessage(reply: Reply, successPath: string, fallback: string, connectionError: string)
    requires fallback != [] && connectionError != []
    ensures var o := AfterSave(reply, successPath, fallback, connectionError);
      o.ShowError? ==> o.message != []
  {
  }

  /** The server's own message wins over the fixed fallback whenever it is
      non-empty. */
  lemma ServerMessageWins(message: string, successPath: string, fallback: string, connectionError: string)
    requires message != []
    ensures AfterSave(Reply(false, Json(Some(message))), successPath, fallback, connectionError) == ShowError(message)
  {
  }

  /** The whole submit: the checks, then the request only when they pass. */
  function HandleSubmit<P>(check: Check<P>, reply: Reply, successPath: string, fallback: string, connectionError: string): (o: Outcome)
    ensures check.Invalid? ==> o == ShowError(check.message)
    ensures check.Send? ==> o == AfterSave(reply, successPath, fallback, connectionError)
  {
    if check.Invalid? then ShowError(check.message) else AfterSave(reply, successPath, fallback, connectionError)
  }

  /** Navigation away from the form happens only after the checks pass and the
      server accepts. */
  lemma NavigateOnlyWhenSaved<P>(check: Check<P>, reply: Reply, successPath: string, fallback: string, connectionError: string)
    ensures HandleSubmit(check, reply, successPath, fallback, connectionError).Navigate? <==>
      check.Send? && reply.Reply? && reply.ok
  {
  }
}
