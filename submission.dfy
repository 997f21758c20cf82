/** The submit handler of the requirement form: the empty-description gate,
    the payload it sends, and how it reads the server's reply. */
module Submission {
  import opened Strings
  import opened Optional
  import opened Attachments

  /** The raw values of the form's text inputs and selects. */
  datatype FormInput = FormInput(
    memberName: string, memberEmail: string, department: string,
    priority: string, title: string)

  /** One entry of the payload's `files` array. */
  datatype Attachment = Attachment(name: string, mimeType: string, data: string)

  /** The requirement sent to the server. */
  datatype Requirement = Requirement(
    memberName: string, memberEmail: string, department: string,
    priority: string, title: string, description: string,
    timestamp: string, status: string, files: seq<Attachment>)

  /** The status every new requirement starts in. */
  const InitialStatus: string := "Pending"

  /** The loop that awaits `fileToBase64` for every selected file and pushes
      its descriptor; `encode` stands for the base64 text the reader yields. */
  method EncodeFiles(files: seq<SelectedFile>, encode: SelectedFile -> string)
    returns (attachments: seq<Attachment>)
    ensures |attachments| == |files|
    ensures forall i :: 0 <= i < |files| ==>
      attachments[i] == Attachment(files[i].name, files[i].mimeType, encode(files[i]))
  {
    attachments := [];
    for i := 0 to |files|
      invariant |attachments| == i
      invariant forall j :: 0 <= j < i ==>
        attachments[j] == Attachment(files[j].name, files[j].mimeType, encode(files[j]))
    {
      attachments := attachments + [Attachment(files[i].name, files[i].mimeType, encode(files[i]))];
    }
  }

  /** The description counts as given when Quill's plain text, trimmed,
      is not empty, that is when it is not all whitespace. */
  predicate HasDescription(editorText: string)
    ensures HasDescription(editorText) <==> !AllWhitespace(editorText)
  {
    Trim(editorText) != []
  }

  /** The requirement the handler sends once the description is given:
      `editorHtml` is the editor's markup, `now` the ISO timestamp of the
      submission, and every selected file is encoded, in order, whatever
      its size. */
  function Payload(
    form: FormInput, editorHtml: string, now: string,
    files: seq<SelectedFile>, encode: SelectedFile -> string): (p: Requirement)
    ensures p.memberName == Trim(form.memberName)
    ensures p.memberEmail == ToLower(Trim(form.memberEmail))
    ensures p.department == form.department && p.priority == form.priority
    ensures p.title == Trim(form.title)
    ensures p.description == editorHtml && p.timestamp == now
    ensures p.status == InitialStatus
    ensures |p.files| == |files|
    ensures forall i :: 0 <= i < |files| ==>
      p.files[i] == Attachment(files[i].name, files[i].mimeType, encode(files[i]))
  {
    var attachments := seq(|files|, i requires 0 <= i < |files| =>
      Attachment(files[i].name, files[i].mimeType, encode(files[i])));
    Requirement(
      Trim(form.memberName), ToLower(Trim(form.memberEmail)), form.department,
      form.priority, Trim(form.title), editorHtml, now, InitialStatus, attachments)
  }

  /** The handler up to the request: nothing when the description is
      empty (then nothing is sent), otherwise the payload, built with the
      encoding loop. */
  method PreparePayload(
    form: FormInput, editorText: string, editorHtml: string, now: string,
    files: seq<SelectedFile>, encode: SelectedFile -> string)
    returns (payload: Option<Requirement>)
    ensures payload.None? <==> AllWhitespace(editorText)
    ensures payload ==
      if AllWhitespace(editorText) then None else Some(Payload(form, editorHtml, now, files, encode))
  {
    if !HasDescription(editorText) {
      return None;
    }
    var attachments := EncodeFiles(files, encode);
    assert attachments == Payload(form, editorHtml, now, files, encode).files;
    payload := Some(Requirement(
      Trim(form.memberName), ToLower(Trim(form.memberEmail)), form.department,
      form.priority, Trim(form.title), editorHtml, now, InitialStatus, attachments));
  }

  /** A file the list skips for its size still travels with the payload,
      at its own position and with its own data. */
  lemma OversizedFilesAreSent(
    form: FormInput, editorHtml: string, now: string,
    files: seq<SelectedFile>, encode: SelectedFile -> string, i: nat)
    requires i < |files| && TooLarge(files[i])
    ensures ItemFor(i, files[i]) !in ListedFiles(files)
    ensures Payload(form, editorHtml, now, files, encode).files[i] ==
      Attachment(files[i].name, files[i].mimeType, encode(files[i]))
  {
    ListedIffSmallEnough(files, i);
  }

  /** What the request produced: it threw (network failure, unparsable body),
      carrying the error's message if any, or the server answered with
      `{ success, message }`. */
  datatype SubmitReply = SubmitThrew(message: Option<string>) | SubmitAnswered(success: bool, message: Option<string>)

  /** How the submission ends for the user. */
  datatype SubmitOutcome = DescriptionMissing | Submitted | SubmitFailed(errorText: string)

  const SubmissionFailedText: string := "Submission failed"
  const GenericErrorText: string := "An error occurred. Please try again."

  /** The `try`/`catch` after the request: success only on a `success` flag,
      otherwise the server's message, or else a fixed fallback, is shown. */
  function ReplyOutcome(reply: SubmitReply): (o: SubmitOutcome)
    ensures o != DescriptionMissing
    ensures o == Submitted <==> reply.SubmitAnswered? && reply.success
    ensures o.SubmitFailed? ==> o.errorText != ""
    ensures o.SubmitFailed? && Truthy(reply.message) ==> o.errorText == reply.message.value
    ensures o.SubmitFailed? && !Truthy(reply.message) ==>
      o.errorText == (if reply.SubmitAnswered? then SubmissionFailedText else GenericErrorText)
  {
    match reply
    case SubmitAnswered(success, message) =>
      if success then Submitted
      // the thrown Error carries `message || 'Submission failed'`, never empty
      else SubmitFailed(OrElse(Some(OrElse(message, SubmissionFailedText)), GenericErrorText))
    case SubmitThrew(message) => SubmitFailed(OrElse(message, GenericErrorText))
  }
}
