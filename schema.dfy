/**
 * The waitlist schema `z.object({ email: z.string().email(...) })` and the way the
 * route turns its failure into the text of a 400 answer.
 *
 * Whether a string is an e-mail address is decided by zod's own pattern, which is
 * not part of this model: every operation takes it as the parameter `isEmail`.
 */
module Schema {
  import opened Results
  import opened Json

  /** The message the schema attaches to the `email` field when the address is malformed. */
  const EmailMessage := "Please enter a valid email address"
  /** The 400 text used when no form-level error is available. */
  const FallbackMessage := "Invalid input"
  /** zod's default message for a key that is missing from an object. */
  const RequiredMessage := "Required"

  /**
   * One problem zod reports: `path` is empty for a problem with the body as a
   * whole (a form-level error) and `["email"]` for a problem with the field.
   */
  datatype Issue = Issue(path: seq<string>, message: string)

  predicate IsFormLevel(i: Issue) { i.path == [] }

  /** zod's default text for a value of the wrong type. */
  function Expected(want: string, got: Value): (text: string) {
    "Expected " + want + ", received " + TypeName(got)
  }

  /**
   * `waitlistSchema.parse(body)`: succeeds with the `email` member verbatim exactly
   * when the body is an object whose `email` member is a string accepted by `isEmail`.
   * Other members are ignored. Only a body that is not an object produces a
   * form-level issue; every problem with the `email` member is a field-level one.
   */
  function ParseWaitlist(body: Value, isEmail: string -> bool): (r: Result<string, seq<Issue>>)
    ensures r.Ok? <==>
              body.Obj? && "email" in body.members && body.members["email"].Str?
              && isEmail(body.members["email"].s)
    ensures r.Ok? ==> r.value == body.members["email"].s
    ensures r.Err? ==> |r.error| == 1
    ensures r.Err? ==> (IsFormLevel(r.error[0]) <==> !body.Obj?)
    ensures r.Err? && body.Obj? ==> r.error[0].path == ["email"]
  {
    if !body.Obj? then
      Err([Issue([], Expected("object", body))])
    else if "email" !in body.members then
      Err([Issue(["email"], RequiredMessage)])
    else
      var field := body.members["email"];
      if !field.Str? then
        Err([Issue(["email"], Expected("string", field))])
      else if !isEmail(field.s) then
        Err([Issue(["email"], EmailMessage)])
      else
        Ok(field.s)
  }

  /**
   * `error.flatten().formErrors`: the messages of the form-level issues, in order.
   */
  function FormErrors(issues: seq<Issue>): (r: seq<string>)
    ensures |r| <= |issues|
    ensures r == [] <==> forall i :: i in issues ==> !IsFormLevel(i)
    ensures r != [] ==>
              exists k :: 0 <= k < |issues| && IsFormLevel(issues[k]) && r[0] == issues[k].message
                          && forall j :: 0 <= j < k ==> !IsFormLevel(issues[j])
  {
    if issues == [] then []
    else
      var rest := FormErrors(issues[1..]);
      if IsFormLevel(issues[0]) then
        [issues[0].message] + rest
      else
        assert forall k :: 1 <= k < |issues| ==> issues[k] == issues[1..][k - 1];
        rest
  }

  /**
   * `formErrors[0] || 'Invalid input'`: the first form-level message, unless there is
   * none or it is the empty string (which JavaScript's `||` treats as false).
   */
  function ValidationMessage(issues: seq<Issue>): (r: string)
    ensures r != ""
    ensures (forall i :: i in issues ==> !IsFormLevel(i)) ==> r == FallbackMessage
    ensures r != FallbackMessage ==>
              exists k :: 0 <= k < |issues| && IsFormLevel(issues[k]) && r == issues[k].message
    ensures forall k :: 0 <= k < |issues| && IsFormLevel(issues[k])
                        && (forall j :: 0 <= j < k ==> !IsFormLevel(issues[j])) ==>
                          r == (if issues[k].message != "" then issues[k].message else FallbackMessage)
  {
    var form := FormErrors(issues);
    if form != [] && form[0] != "" then form[0] else FallbackMessage
  }
}
