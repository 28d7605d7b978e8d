/**
 The "new devotional" form of app/admin/devotionals/new/page.tsx: its defaults,
 the required-field check, and the payload it posts.
 */
module DevotionalForm {
  import opened Text
  import opened SaveReply

  /** The form's fields; `status` is whatever the select holds. */
  datatype Form = Form(title: string, content: string, date: string, status: string)

  datatype Payload = Payload(title: string, content: string, date: string, status: string)

  const RequiredError: string := "El título, contenido y fecha son obligatorios"
  const SaveFallback: string := "Error al guardar el devocional"
  const ConnectionError: string := "Error de conexión"
  const ListPage: string := "/admin/devotionals"

  /** The initial form: empty title and content, status draft, and the date
      part of `new Date().toISOString()` (taken as a parameter). */
  function DefaultForm(nowIso: string): (f: Form)
    ensures f.title == [] && f.content == [] && f.status == "draft"
    ensures f.date <= nowIso && 'T' !in f.date
    ensures |f.date| == |nowIso| || nowIso[|f.date|] == 'T'
  {
    Form([], [], BeforeFirst(nowIso, 'T'), "draft")
  }

  /** A field the check refuses: title or content blank once trimmed, or the
      date empty (the date is not trimmed). */
  predicate Incomplete(f: Form) {
    IsBlank(f.title) || IsBlank(f.content) || f.date == []
  }

  /** The checks of `handleSubmit` and the body it posts. */
  function Check(f: Form): (r: SaveReply.Check<Payload>)
    ensures r.Invalid? <==> Incomplete(f)
    ensures r.Invalid? ==> r.message == RequiredError
    ensures r.Send? ==> r.payload.title == Trim(f.title) && r.payload.content == f.content
    ensures r.Send? ==> r.payload.date == f.date && r.payload.status == f.status
  {
    if Incomplete(f) then Invalid(RequiredError)
    else Send(Payload(Trim(f.title), f.content, f.date, f.status))
  }

  /** A posted devotional has a non-empty title with no whitespace at either
      end, non-blank content and a date. */
  lemma SentPayloadIsClean(f: Form)
    requires Check(f).Send?
    ensures var p := Check(f).payload;
      p.title != [] && Trim(p.title) == p.title && !IsBlank(p.content) && p.date != []
  {
    TrimIdempotent(f.title);
  }

  /** A freshly opened form cannot be submitted as it is. */
  lemma DefaultFormIsIncomplete(nowIso: string)
    ensures Check(DefaultForm(nowIso)) == Invalid(RequiredError)
  {
  }

  /** `handleSubmit` end to end: the reply only matters once the checks pass. */
  function Submit(f: Form, reply: Reply): (o: Outcome)
    ensures Incomplete(f) ==> o == ShowError(RequiredError)
    ensures o.Navigate? <==> !Incomplete(f) && reply.Reply? && reply.ok
    ensures o.Navigate? ==> o.path == ListPage
    ensures o.ShowError? ==> o.message != []
  {
    NavigateOnlyWhenSaved(Check(f), reply, ListPage, SaveFallback, ConnectionError);
    FailureShowsMessage(reply, ListPage, SaveFallback, ConnectionError);
    HandleSubmit(Check(f), reply, ListPage, SaveFallback, ConnectionError)
  }
}
