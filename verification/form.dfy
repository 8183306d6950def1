/**
 The mock contact-form submission (script.js lines 93-138). Every field that
 carries `required` is checked; a blank one is marked in error and the first
 of them gets focus; when none is blank and the form contains a `<button>`
 element (the first `button[type="submit"]`, otherwise the first `button`; an
 `<input type="submit">` is not found), that button goes through the phases
 "Sending...", "Sent ✅" and back, and the form is reset.
 */
module Form {
  import opened Optional
  import opened Whitespace

  /** A required input or textarea: its current and markup-default values, its
      `error` class and its `aria-invalid` attribute. */
  datatype Field = Field(value: string, defaultValue: string, error: bool, ariaInvalid: bool)

  /** The button the submit handler picks: its text, `disabled` flag, and whether it carries the success gradient. */
  datatype Button = Button(text: string, disabled: bool, successStyle: bool)

  const SendingLabel: string := "Sending..."
  const SentLabel: string := "Sent \U{2705}"

  /** `!value || value.trim().length === 0`: a value is missing exactly when
      it is blank, so the separate emptiness test is subsumed. */
  predicate Missing(value: string)
    ensures Missing(value) <==> Blank(value)
  {
    |value| == 0 || |Trim(value)| == 0
  }

  /** Checking one field: a blank one gets the error marks, any other loses them. */
  function Mark(f: Field): (r: Field)
    ensures r.value == f.value && r.defaultValue == f.defaultValue
    ensures r.error <==> Blank(f.value)
    ensures r.ariaInvalid == r.error
  {
    if Missing(f.value) then f.(error := true, ariaInvalid := true)
    else f.(error := false, ariaInvalid := false)
  }

  /** Every required field after checking, in document order. */
  function MarkAll(fields: seq<Field>): (r: seq<Field>)
    ensures |r| == |fields|
    ensures forall i :: 0 <= i < |r| ==>
      && r[i].value == fields[i].value
      && r[i].defaultValue == fields[i].defaultValue
      && (r[i].error <==> Blank(fields[i].value))
      && r[i].ariaInvalid == r[i].error
  {
    seq(|fields|, i requires 0 <= i < |fields| => Mark(fields[i]))
  }

  /** No required field is blank. */
  predicate AllFilled(fields: seq<Field>) {
    forall i :: 0 <= i < |fields| ==> !Blank(fields[i].value)
  }

  /** The checking loop: each field is marked, and `ok` stays true exactly as
      long as no blank field has been seen. */
  method Validate(fields: seq<Field>) returns (marked: seq<Field>, ok: bool)
    ensures marked == MarkAll(fields)
    ensures ok <==> AllFilled(fields)
  {
    marked := [];
    ok := true;
    var i := 0;
    while i < |fields|
      invariant 0 <= i <= |fields|
      invariant |marked| == i
      invariant forall j :: 0 <= j < i ==> marked[j] == Mark(fields[j])
      invariant ok <==> forall j :: 0 <= j < i ==> !Blank(fields[j].value)
    {
      var f := fields[i];
      if Missing(f.value) {
        ok := false;
        marked := marked + [f.(error := true, ariaInvalid := true)];
      } else {
        marked := marked + [f.(error := false, ariaInvalid := false)];
      }
      i := i + 1;
    }
    assert marked == MarkAll(fields);
  }

  /** `form.querySelector('.error')` over the fields: the first one marked in error. */
  function FirstMarked(fields: seq<Field>): (r: Option<nat>)
    ensures r.None? <==> forall i :: 0 <= i < |fields| ==> !fields[i].error
    ensures r.Some? ==> r.value < |fields| && fields[r.value].error
    ensures r.Some? ==> forall j :: 0 <= j < r.value ==> !fields[j].error
    decreases |fields|
  {
    if |fields| == 0 then None
    else if fields[0].error then Some(0)
    else
      match FirstMarked(fields[1..])
      case None => None
      case Some(k) => Some(k + 1)
  }

  /** The button over the mock submission: disabled while "Sending...", then
      "Sent ✅" with the success style, then enabled again with its label and
      style restored. */
  function Phases(b: Button): (r: seq<Button>)
    ensures |r| == 3
    ensures r[0].text == SendingLabel && r[0].disabled && r[0].successStyle == b.successStyle
    ensures r[1].text == SentLabel && r[1].disabled && r[1].successStyle
    ensures r[2].text == b.text && !r[2].disabled && !r[2].successStyle
  {
    var sending := b.(disabled := true, text := SendingLabel);
    var sent := sending.(text := SentLabel, successStyle := true);
    var restored := sent.(disabled := false, text := b.text, successStyle := false);
    [sending, sent, restored]
  }

  /** `form.reset()`: every field goes back to its markup default; its marks stay. */
  function Reset(fields: seq<Field>): (r: seq<Field>)
    ensures |r| == |fields|
    ensures forall i :: 0 <= i < |r| ==>
      r[i].value == fields[i].defaultValue && r[i].defaultValue == fields[i].defaultValue &&
      r[i].error == fields[i].error && r[i].ariaInvalid == fields[i].ariaInvalid
  {
    seq(|fields|, i requires 0 <= i < |fields| => fields[i].(value := fields[i].defaultValue))
  }

  /** The outcome of a submit event. Either way the real submission is cancelled. */
  datatype Submission =
    | Rejected(marked: seq<Field>, focus: Option<nat>)
    | Accepted(marked: seq<Field>, phases: seq<Button>, finalFields: seq<Field>)

  /** Handling a submit event over the form's required fields and the button
      the handler picks: the first `button[type="submit"]`, otherwise the first
      `button` of any type, `None` when the form contains no `<button>` element
      (an `<input type="submit">` is not found). */
  method Submit(fields: seq<Field>, button: Option<Button>) returns (s: Submission)
    ensures s.marked == MarkAll(fields)
    ensures s.Rejected? <==> exists i :: 0 <= i < |fields| && Blank(fields[i].value)
    ensures s.Rejected? ==>
      && s.focus.Some?
      && s.focus.value < |fields|
      && Blank(fields[s.focus.value].value)
      && forall j :: 0 <= j < s.focus.value ==> !Blank(fields[j].value)
    ensures s.Accepted? && button.None? ==> s.phases == [] && s.finalFields == s.marked
    ensures s.Accepted? && button.Some? ==>
      && s.phases == Phases(button.value)
      && s.finalFields == Reset(s.marked)
    ensures s.Accepted? && button.Some? ==>
      && |s.finalFields| == |fields|
      && forall i :: 0 <= i < |fields| ==>
           s.finalFields[i].value == fields[i].defaultValue && !s.finalFields[i].error
  {
    var marked, ok := Validate(fields);
    if !ok {
      s := Rejected(marked, FirstMarked(marked));
      return;
    }
    match button
    case None =>
      s := Accepted(marked, [], marked);
    case Some(b) =>
      s := Accepted(marked, Phases(b), Reset(marked));
  }

  /** An enabled, unstyled button comes back exactly as it was. */
  lemma PhasesReturnToIdle(b: Button)
    requires !b.disabled && !b.successStyle
    ensures Phases(b)[2] == b
  {
  }

  /** After all required fields pass, the reset leaves every field holding its
      markup default with no error marks: the form is back to its served state. */
  lemma AcceptedSubmitResetsForm(fields: seq<Field>)
    requires AllFilled(fields)
    ensures |Reset(MarkAll(fields))| == |fields|
    ensures forall i :: 0 <= i < |fields| ==>
      && Reset(MarkAll(fields))[i].value == fields[i].defaultValue
      && !Reset(MarkAll(fields))[i].error
      && !Reset(MarkAll(fields))[i].ariaInvalid
  {
  }

  /** The focus lookup `form.querySelector('.error')` over the checked fields
      finds nothing exactly when the submission goes through. */
  lemma ErrorLookupEmptyIffFilled(fields: seq<Field>)
    ensures FirstMarked(MarkAll(fields)).None? <==> AllFilled(fields)
  {
  }
}
