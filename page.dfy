/** The state the page keeps between events: the file input's selection
    and the last result set a search stored (`allRequirements`). */
module Page {
  import opened Strings
  import opened Optional
  import opened Attachments
  import Submission
  import Email
  import Results

  class RequirementPage {
    /** `fileInput.files`, in order. */
    var selection: seq<SelectedFile>
    /** `allRequirements`, the last non-empty result of a search. */
    var allRequirements: seq<Results.Requirement>

    constructor ()
      ensures selection == [] && allRequirements == []
    {
      selection := [];
      allRequirements := [];
    }

    /** `displayFiles`: walk the selection, skip what is over 10 MiB, list
      the rest with its position. The selection itself is only read. */
    method DisplayFiles() returns (items: seq<FileItem>)
      ensures items == ListedFiles(selection)
    {
      items := [];
      var i := 0;
      while i < |selection|
        invariant 0 <= i <= |selection|
        invariant items == ListedFiles(selection[..i])
      {
        assert selection[..i + 1][..i] == selection[..i];
        if !TooLarge(selection[i]) {
          items := items + [ItemFor(i, selection[i])];
        }
        i := i + 1;
      }
      assert selection[..i] == selection;
    }

    /** The user picks files in the file input; the list is redrawn. */
    method ChooseFiles(files: seq<SelectedFile>) returns (items: seq<FileItem>)
      modifies this
      ensures selection == files && allRequirements == old(allRequirements)
      ensures items == ListedFiles(files)
    {
      selection := files;
      items := DisplayFiles();
    }

    /** `removeFile(index)`: rebuild the selection without position `index`
      and redraw the list. */
    method RemoveFile(index: int) returns (items: seq<FileItem>)
      modifies this
      ensures selection == RemovedAt(old(selection), index)
      ensures allRequirements == old(allRequirements)
      ensures items == ListedFiles(selection)
    {
      selection := RebuildWithout(selection, index);
      items := DisplayFiles();
    }

    /** The submit handler. With an empty description nothing is sent and
      nothing changes. Otherwise the payload is built from the inputs and
      the whole selection, and `reply` is what the request produced; a
      successful reply resets the form, which empties the file input. */
    method Submit(
      form: Submission.FormInput, editorText: string, editorHtml: string, now: string,
      encode: SelectedFile -> string, reply: Submission.SubmitReply)
      returns (outcome: Submission.SubmitOutcome, sent: Option<Submission.Requirement>)
      modifies this
      ensures sent.None? <==> AllWhitespace(editorText)
      ensures sent.None? ==> outcome == Submission.DescriptionMissing
      ensures sent == if AllWhitespace(editorText) then None
        else Some(Submission.Payload(form, editorHtml, now, old(selection), encode))
      ensures sent.Some? ==> outcome == Submission.ReplyOutcome(reply)
      ensures selection == if outcome == Submission.Submitted then [] else old(selection)
      ensures allRequirements == old(allRequirements)
    {
      sent := Submission.PreparePayload(form, editorText, editorHtml, now, selection, encode);
      if sent.None? {
        return Submission.DescriptionMissing, sent;
      }
      outcome := Submission.ReplyOutcome(reply);
      if outcome == Submission.Submitted {
        selection := [];
      }
    }

    /** `searchRequirements`: `reply` is what the request would produce; it
      is not consulted when the address is rejected. The stored set is
      replaced only by a non-empty successful answer, and then shown.
      `cards` are the cards this event draws, none unless results were
      found. After a rejected address nothing is redrawn, so the cards of an
      earlier search stay on the page; once a request is made the results
      container is hidden, and only found results show it again. */
    method Search(input: string, reply: Results.SearchReply)
      returns (outcome: Results.SearchOutcome, cards: seq<Results.Card>)
      modifies this
      ensures outcome == Results.SearchOutcomeOf(Email.CheckSearchEmail(input), reply)
      ensures allRequirements == Results.StoredAfter(old(allRequirements), outcome)
      ensures selection == old(selection)
      ensures outcome.Found? ==> (|cards| == |outcome.results| &&
        forall i :: 0 <= i < |cards| ==> cards[i] == Results.CardOf(outcome.results[i]))
      ensures !outcome.Found? ==> cards == []
    {
      var check := Email.CheckSearchEmail(input);
      outcome := Results.SearchOutcomeOf(check, reply);
      if outcome.Found? {
        var results := outcome.results;
        cards := Results.DisplayRequirements(results);
        allRequirements := results;
      } else {
        cards := [];
      }
    }

    /** `filterResults(status)`: the cards of the filtered stored set. The
      stored set is only read. */
    method FilterResults(status: string) returns (cards: seq<Results.Card>)
      ensures status == "all" ==> (|cards| == |allRequirements| &&
        forall i :: 0 <= i < |cards| ==> cards[i] == Results.CardOf(allRequirements[i]))
      ensures status != "all" ==>
        var shown := Results.WithStatus(allRequirements, status);
        |cards| == |shown| &&
        forall i :: 0 <= i < |cards| ==> cards[i] == Results.CardOf(shown[i]) && shown[i].status == status
    {
      var shown := Results.Filter(allRequirements, status);
      cards := Results.DisplayRequirements(shown);
    }
  }
}
