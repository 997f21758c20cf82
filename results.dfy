/** The tracking side of the page: the search that replaces the stored
    result set, the status filter over it, and the card each record becomes. */
module Results {
  import opened Strings
  import opened Optional
  import opened Email

  /** A requirement as the server returns it. */
  datatype Requirement = Requirement(
    status: string, priority: string, department: string, title: string,
    description: string, timestamp: string,
    fileUrls: Option<string>, adminComments: Option<string>)

  /** What the search request produced: it threw, or the server answered
      with `{ success, data }`. */
  datatype SearchReply = SearchThrew | SearchAnswered(success: bool, data: Option<seq<Requirement>>)

  /** How a search ends for the user. The first two send no request. */
  datatype SearchOutcome =
    | EmailMissing
    | EmailMalformed
    | Found(email: string, results: seq<Requirement>)
    | NothingFound(email: string)
    | LoadFailed(email: string)

  /** `searchRequirements` once the address has been checked: a rejected
      address ends the search before any request; otherwise the reply only
      counts when `success` holds and `data` is a non-empty list. */
  function SearchOutcomeOf(check: EmailCheck, reply: SearchReply): (o: SearchOutcome)
    ensures o.EmailMissing? <==> check.MissingEmail?
    ensures o.EmailMalformed? <==> check.MalformedEmail?
    ensures check.ValidEmail? ==> o.email == check.address
    ensures o.LoadFailed? <==> check.ValidEmail? && reply.SearchThrew?
    ensures o.Found? <==> check.ValidEmail? && reply.SearchAnswered? && reply.success &&
                          reply.data.Some? && |reply.data.value| > 0
    ensures o.Found? ==> o.results == reply.data.value
  {
    match check
    case MissingEmail => EmailMissing
    case MalformedEmail => EmailMalformed
    case ValidEmail(email) =>
      match reply
      case SearchThrew => LoadFailed(email)
      case SearchAnswered(success, data) =>
        if success && data.Some? && |data.value| > 0 then Found(email, data.value)
        else NothingFound(email)
  }

  /** The stored result set after a search that ended in `o`. */
  function StoredAfter(stored: seq<Requirement>, o: SearchOutcome): seq<Requirement> {
    if o.Found? then o.results else stored
  }

  /** The stored set is replaced by the reply's data exactly when the address
      is valid, `success` holds and the data is non-empty; a rejected address,
      a failure, an empty list or a thrown error keep the previous set. */
  lemma SearchReplacesOnlyOnResults(stored: seq<Requirement>, check: EmailCheck, reply: SearchReply)
    ensures var o := SearchOutcomeOf(check, reply);
      var replaced := check.ValidEmail? && reply.SearchAnswered? &&
                      reply.success && reply.data.Some? && |reply.data.value| > 0;
      && (replaced ==> StoredAfter(stored, o) == reply.data.value)
      && (!replaced ==> StoredAfter(stored, o) == stored)
  {
  }

  /** `allRequirements.filter(req => req.status === status)`. */
  function WithStatus(rs: seq<Requirement>, status: string): (r: seq<Requirement>)
    ensures |r| <= |rs|
    ensures forall i :: 0 <= i < |r| ==> r[i].status == status
    decreases |rs|
  {
    if rs == [] then []
    else (if rs[0].status == status then [rs[0]] else []) + WithStatus(rs[1..], status)
  }

  /** `filterResults`: the whole set for `"all"`, otherwise the records whose
      status equals the given one exactly. */
  function Filter(rs: seq<Requirement>, status: string): seq<Requirement> {
    if status == "all" then rs else WithStatus(rs, status)
  }

  /** Filtering distributes over concatenation, so relative order is kept. */
  lemma {:induction false} WithStatusConcat(a: seq<Requirement>, b: seq<Requirement>, status: string)
    ensures WithStatus(a + b, status) == WithStatus(a, status) + WithStatus(b, status)
    decreases |a|
  {
    if a == [] {
      assert a + b == b;
    } else {
      var x := a[0];
      assert a + b == [x] + (a[1..] + b);
      assert (a + b)[0] == x && (a + b)[1..] == a[1..] + b;
      WithStatusConcat(a[1..], b, status);
      var head := if x.status == status then [x] else [];
      calc {
        WithStatus(a + b, status);
        head + WithStatus(a[1..] + b, status);
        head + (WithStatus(a[1..], status) + WithStatus(b, status));
        (head + WithStatus(a[1..], status)) + WithStatus(b, status);
      }
    }
  }

  /** Each record occurs in the filtered set as often as it occurs in the
      stored set when its status matches, and not at all otherwise. */
  lemma {:induction false} WithStatusCounts(rs: seq<Requirement>, status: string, x: Requirement)
    ensures multiset(WithStatus(rs, status))[x] == if x.status == status then multiset(rs)[x] else 0
    decreases |rs|
  {
    if rs != [] {
      WithStatusCounts(rs[1..], status, x);
      assert rs == [rs[0]] + rs[1..];
    }
  }

  /** `a` is `b` with some elements left out, the rest in the same order. */
  predicate IsSubsequence(a: seq<Requirement>, b: seq<Requirement>)
    decreases |b|
  {
    if a == [] then true
    else if b == [] then false
    else if a[0] == b[0] then IsSubsequence(a[1..], b[1..])
    else IsSubsequence(a, b[1..])
  }

  lemma {:induction false} WithStatusIsSubsequence(rs: seq<Requirement>, status: string)
    ensures IsSubsequence(WithStatus(rs, status), rs)
    decreases |rs|
  {
    if rs != [] {
      WithStatusIsSubsequence(rs[1..], status);
      var r := WithStatus(rs, status);
      if rs[0].status != status {
        if r != [] {
          assert r == WithStatus(rs[1..], status);
        }
      } else {
        assert r[1..] == WithStatus(rs[1..], status);
      }
    }
  }

  /** The filtered set is empty exactly when no stored record has the
      status, so an unknown status shows nothing rather than failing. */
  lemma {:induction false} WithStatusEmptyIff(rs: seq<Requirement>, status: string)
    ensures WithStatus(rs, status) == [] <==> forall i :: 0 <= i < |rs| ==> rs[i].status != status
    decreases |rs|
  {
    if rs != [] {
      WithStatusEmptyIff(rs[1..], status);
      assert forall i :: 1 <= i < |rs| ==> rs[i] == rs[1..][i - 1];
    }
  }

  /** Filtering by `"all"` gives the whole set back; filtering twice by the
      same status is filtering once. Neither changes the stored set, which
      is only read. */
  lemma {:induction false} FilterStable(rs: seq<Requirement>, status: string)
    ensures Filter(rs, "all") == rs
    ensures Filter(Filter(rs, status), status) == Filter(rs, status)
    decreases |rs|
  {
    if status != "all" && rs != [] {
      FilterStable(rs[1..], status);
      var r := WithStatus(rs, status);
      if rs[0].status == status {
        assert r[0] == rs[0] && r[1..] == WithStatus(rs[1..], status);
      } else {
        assert r == WithStatus(rs[1..], status);
      }
    }
  }

  /** The CSS class of the status badge. */
  function BadgeClass(status: string): (cls: string)
    ensures cls == "badge-progress" <==> status == "In Progress"
    ensures cls == "badge-done" <==> status == "Done"
    ensures cls == "badge-pending" <==> status != "In Progress" && status != "Done"
  {
    var cls := if status == "In Progress" then "badge-progress" else "badge-pending";
    if status == "Done" then "badge-done" else cls
  }

  /** The download links of a card: none when `fileUrls` is missing or
      empty, otherwise one per comma-separated piece, trimmed. */
  function FileLinks(fileUrls: Option<string>): Option<seq<string>> {
    if Truthy(fileUrls) then
      var parts := Split(fileUrls.value, ',');
      Some(seq(|parts|, i requires 0 <= i < |parts| => Trim(parts[i])))
    else None
  }

  /** There is one link more than there are commas, each the trimmed text
      between two commas, and none of them contains a comma. */
  lemma FileLinksCount(fileUrls: Option<string>)
    requires Truthy(fileUrls)
    ensures var links := FileLinks(fileUrls).value;
      && |links| == Count(fileUrls.value, ',') + 1
      && (forall i :: 0 <= i < |links| ==> links[i] == Trim(Split(fileUrls.value, ',')[i]))
      && Join(Split(fileUrls.value, ','), ',') == fileUrls.value
  {
    SplitParts(fileUrls.value, ',');
    SplitThenJoin(fileUrls.value, ',');
  }

  /** What `createRequirementCard` shows for one record. */
  datatype Card = Card(
    status: string, badgeClass: string, priority: string, department: string,
    title: string, description: string,
    links: Option<seq<string>>, adminComments: Option<string>)

  /** The card keeps the record's own text, takes its badge class from the
      status and its download links from `fileUrls`, and shows an
      attachments block or an admin-comment block only when that field is
      truthy. */
  function CardOf(r: Requirement): (c: Card)
    ensures c.status == r.status && c.title == r.title && c.priority == r.priority
    ensures c.department == r.department && c.description == r.description
    ensures c.badgeClass == BadgeClass(r.status)
    ensures c.links == FileLinks(r.fileUrls)
    ensures c.links.Some? <==> Truthy(r.fileUrls)
    ensures c.adminComments.Some? <==> Truthy(r.adminComments)
    ensures c.adminComments.Some? ==> c.adminComments == r.adminComments
  {
    Card(r.status, BadgeClass(r.status), r.priority, r.department, r.title, r.description,
         FileLinks(r.fileUrls), if Truthy(r.adminComments) then r.adminComments else None)
  }

  /** `displayRequirements`: one card per record, appended in order. */
  method DisplayRequirements(rs: seq<Requirement>) returns (cards: seq<Card>)
    ensures |cards| == |rs|
    ensures forall i :: 0 <= i < |rs| ==> cards[i] == CardOf(rs[i])
  {
    cards := [];
    for i := 0 to |rs|
      invariant |cards| == i
      invariant forall j :: 0 <= j < i ==> cards[j] == CardOf(rs[j])
    {
      var card := CardOf(rs[i]);
      cards := cards + [card];
    }
  }

  /** A search for an accepted address (such as `user@example.com`, by
      `AcceptsExampleAddress`) answered with a pending and a done record
      finds, and so stores, both; filtering them by `"Done"` keeps the done
      one only, and filtering by `"all"` brings both back. */
  lemma SearchThenFilterExample(email: string, pending: Requirement, done: Requirement)
    requires pending.status == "Pending" && done.status == "Done"
    ensures SearchOutcomeOf(ValidEmail(email), SearchAnswered(true, Some([pending, done]))) == Found(email, [pending, done])
    ensures Filter([pending, done], "Done") == [done]
    ensures Filter([pending, done], "all") == [pending, done]
  {
    FilterDoneExample(pending, done);
  }

  lemma FilterDoneExample(pending: Requirement, done: Requirement)
    requires pending.status == "Pending" && done.status == "Done"
    ensures WithStatus([pending, done], "Done") == [done]
  {
    assert [pending, done][1..] == [done];
    assert [done][1..] == [];
  }

  /** `not-an-email` is rejected before any request, so the stored set
      stays as it was whatever the server would have said. */
  lemma RejectedAddressKeepsResults(e: string, stored: seq<Requirement>, reply: SearchReply)
    requires e == "not-an-email"
    ensures SearchOutcomeOf(CheckSearchEmail(e), reply) == EmailMalformed
    ensures StoredAfter(stored, SearchOutcomeOf(CheckSearchEmail(e), reply)) == stored
  {
    RejectsNotAnEmail(e);
  }
}
