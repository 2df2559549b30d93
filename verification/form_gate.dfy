/**
 Form gating: on every `input` event the submit button is disabled exactly
 when the browser's constraint validation of the form fails. The validity
 reading itself (`checkValidity()`) is a foreign call and is taken here as a
 boolean per event.
 */
module FormGate {

  datatype Form = Form(submitDisabled: bool)

  /** One `input` event, given the validity the browser reports at that moment. */
  function OnInput(f: Form, valid: bool): (r: Form)
    ensures r.submitDisabled <==> !valid
  {
    if valid then Form(false) else Form(true)
  }

  /** A run of `input` events, with the validity reading of each, first to last. */
  function OnInputs(f: Form, readings: seq<bool>): (r: Form)
    ensures readings == [] ==> r == f
    ensures readings != [] ==> (r.submitDisabled <==> !readings[|readings| - 1])
    decreases |readings|
  {
    if readings == [] then f else OnInputs(OnInput(f, readings[0]), readings[1..])
  }

  /** Once an event has fired, the button no longer depends on its starting state. */
  lemma StartForgotten(f: Form, g: Form, readings: seq<bool>)
    requires readings != []
    ensures OnInputs(f, readings) == OnInputs(g, readings)
  {
  }
}
