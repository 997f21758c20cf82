# Requirement form: decision rules

A Dafny model of the logic inside `app.js`, the script of a browser form.
The form lets a team member submit a "requirement" (a ticket-like request
with a rich-text description and attached files) to a spreadsheet-backed web
service. Later the member can look up what they submitted by e-mail address
and filter the results by status.

Almost all of `app.js` is DOM wiring. The model lifts out the decision rules
buried in it and states them over strings, integers and sequences:

- `Strings` holds the JavaScript built-ins the page relies on: `trim`,
  `toLowerCase`, and `split` with a one-character separator (built on a
  first-occurrence search of its own).
  Whitespace is the set of code points ECMAScript's WhiteSpace and
  LineTerminator productions name. `trim` strips that set and the regular
  expression class `\s` matches it.
- `Optional` holds optional fields and JavaScript truthiness (`x || fallback`).
- `Email` is the address check of `searchRequirements`. It trims, lower-cases,
  rejects the empty string, then tests `/^[^\s@]+@[^\s@]+\.[^\s@]+$/`. A lemma
  proves that the regular expression accepts exactly the addresses with no
  whitespace, exactly one `@`, a non-empty local part, and a `.` in the domain
  that is neither the domain's first nor its last character.
- `Attachments` holds the 10 MiB size gate, the extension
  (`name.split('.').pop().toLowerCase()`), the extension-to-icon table and
  removal of one file by position. The list that `displayFiles` draws is
  included too.
- `Submission` covers the submit handler. It refuses an empty description,
  builds the payload (trimmed and lower-cased fields, status `Pending`, every
  selected file encoded in order) and maps the server's reply to success or
  to the error text shown.
- `Results` covers the search outcome, the stored result set, `filterResults`
  and the card built for each record: its badge class, its download links
  and its admin-comment block.
- `Page.RequirementPage` is a class with the state the page keeps between
  events. That state is the file input's selection and `allRequirements`.
  Its methods are the event handlers, and each says how that state changes.

The outside world becomes parameters:
- the editor's plain text and HTML;
- the submission time;
- the base64 text the file reader produces, as a function `encode` of the file;
- what each request produced, as a reply value (the server's answer, or a
  thrown error).

Two behaviours of the code are easy to misread:

- The 10 MiB size check only hides an oversized file from the displayed
  list. The submit loop (app.js:171-179) walks the whole file input, so the
  file is still encoded and sent. `Submission.OversizedFilesAreSent` states
  this.
- The address pattern needs more than "a `.` somewhere after the `@`". The
  `.` must be neither the first nor the last character after the `@`, so
  `a@.com` and `a@b.` are rejected. `Email.PatternMeansWellShaped` states
  the pattern's exact meaning.

## Model

| member | source | states |
|---|---|---|
| `Strings.Trim` | app.js:227 | `trim()` returns the contiguous slice of the input left after cutting whitespace-only runs off both ends; it neither starts nor ends with whitespace and is empty exactly when the input is all whitespace |
| `Strings.Split` | app.js:321 | `split(sep)` always yields at least one part; `SplitThenJoin`, `JoinThenSplit` and `SplitParts` fix the parts exactly |
| `Strings.TrimLeavesClean` | app.js:227 | a string with no whitespace at either end is its own trim |
| `Strings.ToLower` | app.js:227 | `toLowerCase()` keeps the length and maps each character on its own |
| `Strings.ToLowerIdempotent` | app.js:74 | lower-casing twice gives the same result as lower-casing once |
| `Strings.ToLowerKeepsAbsent` | app.js:74 | lower-casing cannot introduce a `.` or `@` that was not there |
| `Strings.SplitThenJoin` | app.js:321 | joining the parts of `split(sep)` with `sep` gives back the original string |
| `Strings.JoinThenSplit` | app.js:321 | splitting a join of separator-free parts gives back the parts |
| `Strings.SplitParts` | app.js:321 | `split(sep)` yields one part more than there are separators, and no part contains the separator |
| `Strings.SplitLastAfter` | app.js:74 | the last part of `split('.')` is the text after the last `.` |
| `Strings.SplitWithoutSeparator` | app.js:74 | with no separator in the string, `split` yields the whole string as its only part |
| `Optional.OrElse` | app.js:201 | `x \|\| fallback` gives the value when it is truthy and the fallback otherwise; with a non-empty fallback it is never empty |
| `Email.PatternMeansWellShaped` | app.js:234-235 | the regular expression matches exactly the strings with no whitespace, exactly one `@`, a non-empty part before it and a `.` after it that is neither first nor last of the domain |
| `Email.MatchesEmailPattern` | app.js:234-235 | the regular expression as a match at some `@` and `.` position; `PatternMeansWellShaped` states what it accepts |
| `Email.CheckSearchEmail` | app.js:227-238 | the address check before the request; `SearchEmailAccepted` states when it accepts, rejects or reports the address missing |
| `Email.SearchEmailAccepted` | app.js:227-238 | the search address is accepted iff, trimmed and lower-cased, it is non-empty and well shaped; the accepted address is that normal form; it is reported missing iff the input is all whitespace |
| `Email.AcceptsMatchingAddress` | app.js:227-238 | an address that matches the pattern and has no upper-case letter is accepted unchanged |
| `Email.AcceptsExampleAddress` | app.js:227-238 | `user@example.com` is accepted as is |
| `Email.RejectsWithoutAt` | app.js:227-238 | a non-blank input with no `@` is always rejected as malformed |
| `Email.RejectsNotAnEmail` | app.js:234-238 | `not-an-email` is rejected as malformed |
| `Attachments.TooLarge` | app.js:68 | the size gate `size > 10*1024*1024`; `ListedIffSmallEnough` states its effect on the list |
| `Attachments.Extension` | app.js:74 | the extension never contains a `.` |
| `Attachments.ExtensionAfterLastDot` | app.js:74 | the extension is the lower-cased text after the last `.` of the name |
| `Attachments.ExtensionWithoutDot` | app.js:74 | without a `.`, the extension is the whole name lower-cased |
| `Attachments.CategoryOf` | app.js:78-96 | a listed extension maps to the category whose table row lists it; every other extension maps to the generic icon |
| `Attachments.IconOf` | app.js:75-96 | only the generic category gets the plain `fa-file` icon |
| `Attachments.IconsDistinct` | app.js:75-96 | no two categories share an icon |
| `Attachments.SplitLowered` | app.js:74 | the last part after splitting the lower-cased name equals the lower-cased last part of the name |
| `Attachments.CategoryIgnoresCase` | app.js:74-96 | two names that agree once lower-cased always get the same category |
| `Attachments.RemovedAt` | app.js:121-125 | removal at a valid index shortens the selection by one and shifts the later files down, keeping their order; any other index leaves the selection unchanged |
| `Attachments.RemovedAtTakesOne` | app.js:121-125 | removal takes out exactly the one file at `index`, as a multiset |
| `Attachments.RebuildWithout` | app.js:119-123 | the `forEach` that copies every file whose position differs from `index` produces `RemovedAt(files, index)` |
| `Attachments.ListedFiles` | app.js:65-113 | every listed item carries the position of a file of at most 10 MiB, with that file's name and category, in increasing position order |
| `Attachments.ListedIffSmallEnough` | app.js:66-72 | a file is listed iff its size is not above 10·1024·1024 bytes, so a file of exactly 10 MiB is listed |
| `Submission.EncodeFiles` | app.js:168-180 | the attachment loop yields one descriptor per selected file, in order, with its name, MIME type and encoded data |
| `Submission.HasDescription` | app.js:145-147 | the description counts as given iff the editor's plain text is not all whitespace |
| `Submission.Payload` | app.js:157-182 | the sent requirement: trimmed name and title, trimmed lower-cased e-mail, department, priority, the editor's HTML and the timestamp verbatim, status `Pending`, and one attachment per selected file in order with its name, MIME type and encoded data |
| `Submission.PreparePayload` | app.js:144-182 | no payload iff the editor text is all whitespace; otherwise exactly `Payload` of the inputs and the files, built by the encoding loop |
| `Submission.OversizedFilesAreSent` | app.js:171-179 | a file the list skips for its size is still in the payload, at its position, with its name, MIME type and data |
| `Submission.ReplyOutcome` | app.js:197-220 | success iff the server answered with `success`; otherwise a non-empty error text: the server's or thrown message when truthy, else `Submission failed` or the generic text |
| `Results.SearchOutcomeOf` | app.js:226-263 | a missing and a malformed address end the search apart, with no request; with a valid address the search fails iff the request threw, and finds results iff `success` holds and `data` is a non-empty list, which are then the results; every later outcome reports the checked address |
| `Results.StoredAfter` | app.js:252-254 | the stored set after a search; `SearchReplacesOnlyOnResults` states when it changes |
| `Results.SearchReplacesOnlyOnResults` | app.js:252-263 | the stored set becomes the reply's data exactly when the address is valid, `success` holds and the data is non-empty; otherwise it keeps its previous value |
| `Results.Filter` | app.js:350-355 | `all` or one status; `FilterStable` and the `WithStatus` lemmas state what it keeps |
| `Results.WithStatus` | app.js:353 | every filtered record has exactly the requested status |
| `Results.WithStatusConcat` | app.js:353 | filtering distributes over concatenation, so relative order is kept |
| `Results.WithStatusCounts` | app.js:353 | a record occurs in the filtered set as often as in the stored set when its status matches, and otherwise not at all |
| `Results.WithStatusIsSubsequence` | app.js:353 | the filtered set is a subsequence of the stored set |
| `Results.WithStatusEmptyIff` | app.js:353 | the filtered set is empty iff no stored record has the status, so an unknown status shows nothing |
| `Results.FilterStable` | app.js:350-355 | filtering by `all` returns the stored set unchanged; filtering twice by one status is the same as filtering once |
| `Results.BadgeClass` | app.js:284-286 | `badge-progress` iff the status is `In Progress`, `badge-done` iff it is `Done`, `badge-pending` for every other status |
| `Results.FileLinks` | app.js:315-321 | the card's download links; `FileLinksCount` states their number and text |
| `Results.FileLinksCount` | app.js:315-321 | when `fileUrls` is truthy there is one link more than there are commas, each the trimmed piece between commas |
| `Results.CardOf` | app.js:279-342 | a card shows the record's status, title, priority, department and description, the badge class `BadgeClass(status)` and the links `FileLinks(fileUrls)`; it has an attachments block iff `fileUrls` is truthy and an admin-comment block, holding the comment, iff the comment is truthy |
| `Results.DisplayRequirements` | app.js:266-277 | one card per record, in order |
| `Results.SearchThenFilterExample` | app.js:252-254 | a valid search answered with a pending and a done record finds both; filtering by `Done` keeps the done one, and filtering by `all` brings both back |
| `Results.RejectedAddressKeepsResults` | app.js:234-238 | searching for `not-an-email` makes no request and keeps the stored set, whatever the reply |
| `Page.RequirementPage.constructor` | app.js:10 | the page starts with an empty selection and an empty result set |
| `Page.RequirementPage.DisplayFiles` | app.js:60-115 | the list drawn equals `ListedFiles` of the selection, and the selection is only read |
| `Page.RequirementPage.ChooseFiles` | app.js:60-65 | choosing files replaces the selection and redraws the list; the result set is unchanged |
| `Page.RequirementPage.RemoveFile` | app.js:117-127 | the new selection is `RemovedAt` of the old one, the list is redrawn, and the result set is unchanged |
| `Page.RequirementPage.Submit` | app.js:141-221 | nothing is sent iff the editor text is all whitespace; otherwise what is sent is exactly `Payload` of the inputs and the whole selection, and the outcome is `ReplyOutcome` of the reply; a successful reply empties the selection and anything else keeps it |
| `Page.RequirementPage.Search` | app.js:226-264 | the outcome is the address check followed by the reply; the stored set is replaced only on found results, which are then drawn as one card each; no other outcome draws a card |
| `Page.RequirementPage.FilterResults` | app.js:344-356 | `all` shows a card for every stored record; any other status shows cards for exactly the matching records, in order; the stored set is only read |

## Left out

- DOM work is presentation and is not modelled: class toggling, HTML
  templating, `showTab`, highlighting of the active filter button and the
  loading, success and error panels. Their on/off choices follow the
  outcomes the model does compute.
- The Quill editor is a third-party widget. Its plain text and HTML are
  inputs, and resetting it after a successful submission is not modelled.
- `fileToBase64` uses the browser's FileReader, a foreign asynchronous API.
  The base64 text is an opaque `encode(file)`. Taking the part after the
  data URL's comma is part of that opaque value. A reader failure would end
  like a thrown error with no message, and it is not modelled separately.
- `fetch`, `response.json()`, `encodeURIComponent` and the service URL are
  network I/O. A reply is an input value: the server's `{ success, message }`
  or `{ success, data }`, or a thrown error. A `success` or `data` of an
  unexpected JSON type is not modelled; they are a boolean and an optional
  list here.
- Async interleaving and the 5-second auto-hide timer are event-loop timing.
  Double submission is left out for the same reason.
- The megabyte figure (`toFixed(2)`) and the card's date (`toLocaleDateString`)
  use floating point and locale formatting. They are not modelled.
- `alert` and `console` are not modelled. Rejections are outcome values.
- Resetting the form after a successful submission is not fully modelled.
  Only its effect on the file input (the selection becomes empty) is state
  here. The text inputs it also clears are parameters of the model.
- Strings.ToLower: maps only the ASCII letters A–Z. JavaScript's
  `toLowerCase` applies full Unicode case mapping, which can change other
  letters and even the string's length. The punctuation and whitespace the
  rules depend on are unaffected either way.
- The unterminated string literal of `SCRIPT_URL` (app.js:6) would stop the
  script from parsing. The model treats the rest of the file as written.
