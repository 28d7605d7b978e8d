/**
 The "new payment" form of app/admin/payments/new/page.tsx: its defaults, the
 two checks in their order, and the payload it posts. `parseFloat` is a
 parameter: all the form relies on is that it yields NaN, a finite number or
 an infinity.
 */
module PaymentForm {
  import opened Text
  import opened SaveReply

  /** What `parseFloat` can return. */
  datatype Parsed = NaN | Finite(value: real) | Infinite(positive: bool)

  /** A number as `JSON.stringify` writes it: infinities become `null`. */
  datatype JsonNumber = Number(value: real) | Null

  datatype Form = Form(recorderId: string, amount: string, date: string, description: string, status: string)

  datatype Payload = Payload(recorderId: string, amount: JsonNumber, date: string, description: string, status: string)

  const RequiredError: string := "Todos los campos son obligatorios"
  const AmountError: string := "El monto debe ser mayor a 0"
  const SaveFallback: string := "Error al guardar el pago"
  const ConnectionError: string := "Error de conexion"
  const ListPage: string := "/admin/payments"

  /** The initial form: everything empty except status pending and the date
      part of `new Date().toISOString()` (taken as a parameter). */
  function DefaultForm(nowIso: string): (f: Form)
    ensures f.recorderId == [] && f.amount == [] && f.description == [] && f.status == "pending"
    ensures f.date <= nowIso && 'T' !in f.date
    ensures |f.date| == |nowIso| || nowIso[|f.date|] == 'T'
  {
    Form([], [], BeforeFirst(nowIso, 'T'), [], "pending")
  }

  /** The first check: recorder and description blank once trimmed, or the
      amount text empty (the amount is not trimmed). */
  predicate MissingField(f: Form) {
    IsBlank(f.recorderId) || f.amount == [] || IsBlank(f.description)
  }

  /** `isNaN(amount) || amount <= 0` fails. */
  predicate Positive(p: Parsed) {
    match p
    case NaN => false
    case Finite(v) => v > 0.0
    case Infinite(positive) => positive
  }

  function ToJson(p: Parsed): (j: JsonNumber)
    requires !p.NaN?
    ensures p.Finite? <==> j.Number?
    ensures p.Finite? ==> j.value == p.value
  {
    if p.Finite? then Number(p.value) else Null
  }

  /** The checks of `handleSubmit`, in order, and the body it posts. */
  function Check(f: Form, parseFloat: string -> Parsed): (r: SaveReply.Check<Payload>)
    ensures MissingField(f) ==> r == Invalid(RequiredError)
    ensures !MissingField(f) && !Positive(parseFloat(f.amount)) ==> r == Invalid(AmountError)
    ensures r.Send? <==> !MissingField(f) && Positive(parseFloat(f.amount))
    ensures r.Send? ==>
      && r.payload.recorderId == Trim(f.recorderId)
      && r.payload.description == Trim(f.description)
      && r.payload.date == f.date
      && r.payload.status == f.status
  {
    if MissingField(f) then Invalid(RequiredError)
    else
      var amount := parseFloat(f.amount);
      if !Positive(amount) then Invalid(AmountError)
      else Send(Payload(Trim(f.recorderId), ToJson(amount), f.date, Trim(f.description), f.status))
  }

  /** A posted amount is a positive number, or `null` exactly when the text
      parsed to +Infinity (which passes the check). */
  lemma SentAmount(f: Form, parseFloat: string -> Parsed)
    requires Check(f, parseFloat).Send?
    ensures var a := Check(f, parseFloat).payload.amount;
      && (a.Number? ==> parseFloat(f.amount) == Finite(a.value) && a.value > 0.0)
      && (a.Null? <==> parseFloat(f.amount) == Infinite(true))
  {
  }

  /** A posted payment names a recorder and has a description, both with no
      whitespace at either end. */
  lemma SentTextIsClean(f: Form, parseFloat: string -> Parsed)
    requires Check(f, parseFloat).Send?
    ensures var p := Check(f, parseFloat).payload;
      && p.recorderId != [] && Trim(p.recorderId) == p.recorderId
      && p.description != [] && Trim(p.description) == p.description
  {
    TrimIdempotent(f.recorderId);
    TrimIdempotent(f.description);
  }

  /** The required-field check comes first: a missing field hides a bad
      amount, whatever `parseFloat` says. */
  lemma RequiredBeforeAmount(f: Form, parseFloat: string -> Parsed)
    requires MissingField(f) && !Positive(parseFloat(f.amount))
    ensures Check(f, parseFloat).message == RequiredError
  {
  }

  /** Of the handler alone: an amount of spaces passes the first check,
      because the amount is not trimmed, and is refused by the second
      (`parseFloat(" ")` is NaN). On the page the amount comes from a number
      input, whose value the browser empties when it is not a number, so this
      state does not reach the handler there. */
  lemma SpacesAmountIsNotMissing(f: Form, parseFloat: string -> Parsed)
    requires !IsBlank(f.recorderId) && !IsBlank(f.description)
    requires f.amount == " " && parseFloat(" ") == NaN
    ensures !MissingField(f)
    ensures Check(f, parseFloat) == Invalid(AmountError)
  {
  }

  /** A freshly opened form cannot be submitted as it is. */
  lemma DefaultFormIsIncomplete(nowIso: string, parseFloat: string -> Parsed)
    ensures Check(DefaultForm(nowIso), parseFloat) == Invalid(RequiredError)
  {
  }

  /** `handleSubmit` end to end. */
  function Submit(f: Form, parseFloat: string -> Parsed, reply: Reply): (o: Outcome)
    ensures MissingField(f) ==> o == ShowError(RequiredError)
    ensures !MissingField(f) && !Positive(parseFloat(f.amount)) ==> o == ShowError(AmountError)
    ensures o.Navigate? <==> !MissingField(f) && Positive(parseFloat(f.amount)) && reply.Reply? && reply.ok
    ensures o.Navigate? ==> o.path == ListPage
    ensures o.ShowError? ==> o.message != []
  {
    NavigateOnlyWhenSaved(Check(f, parseFloat), reply, ListPage, SaveFallback, ConnectionError);
    FailureShowsMessage(reply, ListPage, SaveFallback, ConnectionError);
    HandleSubmit(Check(f, parseFloat), reply, ListPage, SaveFallback, ConnectionError)
  }
}
