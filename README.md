# gephiltephish — a Dafny model of the phishing-vote pipeline

gephiltephish lets a user report a suspicious email from Thunderbird. Other users then vote on
whether it is phishing. The pipeline has three parts:

- **The Thunderbird extension.** It turns the selected message into a plain subject, a plain body and a
  per-domain summary of its links (`extension/preprocessing.js`). It hands them to a redaction popup
  through a query string (`extension/background.js`). There the user removes personal data with built-in
  patterns, their own patterns and a per-link toggle, previews the result and sends it back
  (`extension/redaction.js`). The background script then posts the redacted email to the backend for
  storage or for a verdict.
- **The Django backend.** It stores submissions (`views_email.py`, `views_openai.py`). It gives verdicts
  from a classifier over a normalised text or from a chat model (`ml_utils.py`, `views_openai.py`). It
  lists emails with filters and records one vote per user and email, keeping two counters in step
  (`views_vote.py`). It deletes a user's own emails.
- **The Next.js frontend.** It wraps every call in one error-classifying request function
  (`config/api.ts`). It keeps the session in browser storage (`AuthContext.tsx`, `AuthRequired.tsx`). It
  shows the voting page with its filters (`vote/page.tsx`) and one card per email (`EmailCard.tsx`).

The model has one module per source file:

| module | file | source |
|---|---|---|
| `Strings` | strings.dfy | JavaScript/Python string primitives the core relies on (trim, strip, lower, replace-all, split) |
| `UriCodec` | uri.dfy | UTF-8, `encodeURIComponent`/`decodeURIComponent`, the safe wrappers, query strings |
| `Preprocessing` | preprocessing.dfy | `extension/preprocessing.js` |
| `Redaction` | redaction.dfy | `extension/redaction.js` |
| `Background` | background.dfy | `extension/background.js` |
| `Store` | store.dfy | the `Email` and `Vote` tables the views share |
| `MlUtils` | mlutils.dfy | `backend/api/ml_utils.py` |
| `EmailViews` | emailviews.dfy | `backend/api/views_email.py` |
| `OpenAiViews` | openai.dfy | `backend/api/views_openai.py` |
| `VoteViews` | votes.dfy | `backend/api/views_vote.py` |
| `ApiClient` | api.dfy | `frontend/.../config/api.ts` |
| `AuthContext` | authcontext.dfy | `frontend/.../context/AuthContext.tsx` |
| `AuthRequired` | authrequired.dfy | `frontend/.../components/auth/AuthRequired.tsx` |
| `EmailCard` | emailcard.dfy | `frontend/.../components/email/EmailCard.tsx` |
| `VotePage` | votepage.dfy | `frontend/.../vote/page.tsx` |

Each part takes the source's own form:

- Pure string processing is functions with lemmas.
- Loops in the source are methods with invariants:
  - the link counting in `extractURLs`;
  - the MIME walk in `processMessageParts`;
  - adding the patterns one by one.
- Objects whose fields the source mutates are classes with `modifies` frames:
  - the redaction popup's state (`Redaction.Session`);
  - the background script's pending message (`Background.Dispatcher`);
  - the database (`Store.Database`);
  - browser storage and location (`ApiClient.Browser`);
  - the auth provider and the vote page's React state (`AuthContext.AuthProvider`, `VotePage.Page`).

Each method is proved against a pure function of the old state. The properties are lemmas about those
functions.

Things outside the program's own code are parameters of the model:

- the DOM's text extraction and anchor list;
- the WHATWG URL parser;
- `JSON.parse`;
- the pickled classifier and the chat model;
- Django's authentication and token table, and field validation;
- the clock;
- the server's reply to each `fetch`.

## Model

| member | source | states |
|---|---|---|
| UriCodec.Utf8RoundTrip | extension/preprocessing.js:12 | decoding the UTF-8 bytes `encodeURIComponent` produces for any character gives that character back |
| UriCodec.EncodeDecode | extension/preprocessing.js:12 | `decodeURIComponent(encodeURIComponent(x))` returns `x` for every string |
| UriCodec.SafeRoundTrip | extension/preprocessing.js:8-40 | `safeDecodeURIComponent(safeEncodeURIComponent(x)) == x` for every string, even though the second step re-escapes `'`, `(` and `)` after the first |
| UriCodec.SafeEncodeChars | extension/preprocessing.js:8-18 | the safe encoding holds only unreserved characters, `%` and hex digits: no `&`, `+`, `=`, `#`, `'`, `(` or `)` survives, so a value cannot break out of its query field |
| UriCodec.HandoffFields | extension/background.js:88-92 | the query the background script builds yields each encoded field back under its own name, and the action verbatim |
| UriCodec.EncodedDecodesOnce | extension/redaction.js:112-115 | one form-decoding of a safely encoded value (what `URLSearchParams.get` does) already gives the original text |
| Preprocessing.StripTags | extension/preprocessing.js:144 | the regex fallback leaves no `<…>` tag and only characters of the input |
| Preprocessing.CollapseSpace | extension/preprocessing.js:208 | collapsing whitespace runs leaves no two adjacent whitespace characters, and keeps emptiness and the kind of the first character |
| Preprocessing.CollapseBlanks | extension/preprocessing.js:128-139 | collapsing blank runs leaves no tab and turns a leading blank into one space |
| Preprocessing.BlanksNoDouble | extension/preprocessing.js:128-139 | after the blank-collapsing step no two spaces are adjacent |
| Preprocessing.CollapseNewlines | extension/preprocessing.js:128-139 | after collapsing newline runs no three newlines are adjacent, and only characters of the input remain |
| Preprocessing.TrimmedLines | extension/preprocessing.js:128-139 | every line kept by the per-line cleanup is non-empty and trimmed |
| Preprocessing.CleanTextShape | extension/preprocessing.js:128-139 | the cleaned DOM text is trimmed, has no tab, no double space and no triple newline |
| Preprocessing.HtmlToText | extension/preprocessing.js:47-146 | empty HTML gives empty text; otherwise the cleaned DOM text (empty when the DOM text is empty), or the tag-stripped HTML when the DOM conversion throws |
| Preprocessing.PreprocessSubject | extension/preprocessing.js:191-221 | a processed subject is trimmed, has no adjacent whitespace, no tag, no BOM, no replacement character and no NUL; an empty subject stays empty |
| Preprocessing.PreprocessEmailBody | extension/preprocessing.js:153-184 | a processed body has no carriage return, BOM, replacement character or NUL; an empty body stays empty |
| Preprocessing.DoubleEscapeDecoded | extension/preprocessing.js:198-205 | entity decoding runs `&amp;` first, so a doubly escaped `&amp;lt;x&amp;gt;` becomes real markup `<x>` |
| Preprocessing.EscapedMarkupStripped | extension/preprocessing.js:198-208 | a subject with doubly escaped markup in front processes exactly like the text after it: the markup is decoded and then stripped |
| Preprocessing.ExtractDomain | extension/preprocessing.js:228-237 | a domain is reported only for a parsable URL and is trimmed and non-empty |
| Preprocessing.UrlMatchAt | extension/preprocessing.js:271-280 | a URL match starts with `http://` or `https://` and consists of URL characters only |
| Preprocessing.UrlMatches | extension/preprocessing.js:271-280 | every match of the URL scan is at least eight URL characters long |
| Preprocessing.FirstSeen | extension/preprocessing.js:258-288 | the domain order lists each domain seen exactly once |
| Preprocessing.SummaryEntries | extension/preprocessing.js:284-288 | the summary has one entry per distinct domain, in first-seen order, labelled with its count and `link`/`links` |
| Preprocessing.CountsOfMeaning | extension/preprocessing.js:258-280 | the counter map has exactly the seen domains as keys, each mapped to its number of occurrences |
| Preprocessing.ExtractURLs | extension/preprocessing.js:244-293 | empty content gives no entries; otherwise the entries are the summary of the anchor hosts, then the hosts of the URLs the regex finds in the DOM text (or in the content when that text is empty) |
| Preprocessing.CountMatches | extension/preprocessing.js:271-280 | the regex loop's tally covers the earlier hosts plus every parsable match |
| Preprocessing.FormatCounts | extension/preprocessing.js:284-288 | the formatting loop yields the summary of all hosts tallied |
| Redaction.Insert | extension/redaction.js:166-179 | adding to a pattern set gives exactly the old members plus the new one, keeps it duplicate-free, and changes nothing for a present member |
| Redaction.Remove | extension/redaction.js:64-73 | deleting gives exactly the other members and keeps the set duplicate-free |
| Redaction.InsertAllMembers | extension/redaction.js:166-179 | adding a list of patterns gives exactly the old members plus the list's |
| Redaction.InsertTwice | extension/redaction.js:166-179 | adding a pattern twice is adding it once |
| Redaction.RemoveInserted | extension/redaction.js:64-73 | deleting a pattern just added restores the old set |
| Redaction.AddEach | extension/redaction.js:166-179 | the adding loop yields the set-union function's result and keeps the set duplicate-free |
| Redaction.CustomPassRemoves | extension/redaction.js:297-302 | after the custom-pattern pass no occurrence (any case) of a listed pattern remains, when the pattern cannot reappear inside the tag |
| Redaction.UrlPassKeeps | extension/redaction.js:305-309 | the URL pass introduces no occurrence of a text absent before |
| Redaction.UrlPassRemoves | extension/redaction.js:305-309 | after the URL pass no chosen URL remains |
| Redaction.CustomPatternsGone | extension/redaction.js:282-312 | whatever the built-in toggles, a custom pattern never survives `getRedactedText` |
| Redaction.UrlsGone | extension/redaction.js:282-312 | a URL the user ticked never survives `getRedactedText` |
| Redaction.HighlightUnwraps | extension/redaction.js:337-342 | removing the preview's highlight spans from a markup-free text gives the redacted text back |
| Redaction.ContentPreviewUnwraps | extension/redaction.js:337-342 | the content preview, spans and `<br>` line breaks included, reads back as exactly the redacted content when it has no `<` |
| Redaction.ReadHandoffMeaning | extension/redaction.js:104-159 | the popup loads only when subject and content are both present; it decodes them, keeps the old URL list on a parse failure, and reports success exactly when both decoded texts are non-empty |
| Redaction.DoubleDecodeExample | extension/redaction.js:130-131 | as written: a subject that reads `%41` arrives in the popup as `A` |
| Redaction.IntendedRoundTrip | extension/background.js:88-92 | with one decoding, every field the background script sends arrives unchanged |
| Redaction.NewPatterns | extension/redaction.js:166-172 | splitting the input on commas and trimming gives non-empty patterns without commas |
| Redaction.NewPatternsField | extension/redaction.js:166-172 | a comma-free input gives its trimmed self, or nothing when it is blank |
| Redaction.NewPatternsComma | extension/redaction.js:166-172 | the fields on either side of a comma are read independently and in order |
| Strings.SplitAppend | extension/redaction.js:168 | `split(',')` of two texts joined by a comma is the split of the first followed by the split of the second |
| Redaction.Outgoing | extension/redaction.js:201-228 | the popup asks for a prediction exactly when the action is `predict`, and a submission otherwise |
| Redaction.Session.GetRedactedText | extension/redaction.js:282-312 | the method computes the redaction function of the session's state; with nothing enabled the text is unchanged |
| Redaction.Session.AddCustom | extension/redaction.js:166-179 | the new patterns join the set, and nothing else changes |
| Redaction.Session.DeletePattern | extension/redaction.js:64-73 | the pattern leaves the set, and nothing else changes |
| Redaction.Session.ToggleUrl | extension/redaction.js:233-243 | ticking adds the URL to the redacted set and unticking removes it, and nothing else changes |
| Redaction.Session.Load | extension/redaction.js:104-159 | the session's texts, URL list, action and status become those of the hand-off reading |
| Redaction.Session.Submit | extension/redaction.js:201-228 | nothing is sent while subject or content is empty; otherwise the message carries both texts redacted |
| Redaction.Session.Preview | extension/redaction.js:314-343 | the preview shows both redacted texts highlighted, and nothing while either is empty |
| Background.SenderDomainMeaning | extension/background.js:124-127 | the sender domain is the lower-cased text after the first `@` up to `>` or the end, and empty when there is no `@` with text after it |
| Background.GatheredAppend | extension/background.js:146-159 | the walk over two part lists concatenates what each one gathers |
| Background.OtherTypeIgnored | extension/background.js:146-159 | a part that is neither `text/plain` nor `text/html` contributes nothing |
| Background.SinglePlain | extension/background.js:146-165 | a single plain part gives its body trimmed and no HTML |
| Background.WalkParts | extension/background.js:146-165 | the recursive walk computes the gathering function |
| Background.ProcessMessageParts | extension/background.js:130-166 | a non-empty displayed body wins; otherwise the walked text and HTML |
| Background.RawContent | extension/background.js:169-195 | the HTML is used when there is some, else the plain text |
| Background.UrlsFromRawContent | extension/background.js:169-195 | the URL list and sender domain depend only on the message, never on the redacted texts |
| Background.PayloadFallback | extension/background.js:169-195 | an empty redacted subject or content falls back to the processed original; the payload subject is trimmed and tag-free, the content has no carriage return |
| Background.AttemptWindowsMeaning | extension/background.js:198-302 | a login popup opens exactly when an email is pending and the token is missing or rejected; a submission reports its result; a prediction never does |
| Background.Dispatcher.Attempt | extension/background.js:198-302 | a send happens exactly when an email is pending and a token exists; the pending email is cleared; an authentication failure signs the user out |
| Background.Dispatcher.OnMessage | extension/background.js:16-26 | auth messages update the flag only; redacted emails trigger a submission or a prediction |
| Background.Dispatcher.OnMenuClick | extension/background.js:304-394 | without authentication or token a login popup opens; with a selected message it becomes pending with its action and the redaction window opens |
| Background.ActionFor | extension/background.js:314-392 | the analyse item sets action `predict`, the submit item `submit` |
| Background.ShowRedactionWindow | extension/background.js:78-103 | the popup URL is the query built from the processed message |
| Store.FindEmail | backend/api/views_vote.py:84-92 | the lookup returns the position of the email with that id, or says there is none |
| Store.FindVote | backend/api/views_vote.py:95-96 | the lookup returns the position of this user's vote on that email, or says there is none |
| MlUtils.ProcessText | backend/api/ml_utils.py:5-10 | the normalised text is no longer than the input and holds only lower-case alphanumerics and whitespace |
| MlUtils.KeptUnchanged | backend/api/ml_utils.py:5-10 | an already normalised text is unchanged |
| MlUtils.ProcessTextIdempotent | backend/api/ml_utils.py:5-10 | normalising twice is normalising once |
| MlUtils.ProcessTextAppend | backend/api/ml_utils.py:5-10 | normalisation distributes over concatenation |
| MlUtils.RedactPiiClean | backend/api/ml_utils.py:12-25 | a text without `@` and without decimal digits (`\d`, any Unicode 15.0 category Nd character) passes redaction unchanged |
| MlUtils.RedactPiiNonEmpty | backend/api/ml_utils.py:12-25 | redaction never empties a non-empty text |
| MlUtils.PredictPhishing | backend/api/ml_utils.py:38-51 | the verdict is phishing exactly when the classifier returns 1 on the three normalised fields joined by spaces |
| EmailViews.SubmitEmail | backend/api/views_email.py:16-63 | missing fields give 400 and no change; an accepted submission appends one row with the next id, the owner, the clock, zero counters and the given fields |
| EmailViews.Submit | backend/api/views_email.py:16-63 | the view changes the database as the submission function says, leaves the votes alone and keeps the tables valid |
| EmailViews.SubmitEmailValid | backend/api/views_email.py:39-49 | a submission keeps ids unique, the id counter ahead and the counters equal to the ballots |
| EmailViews.Phishy | backend/api/views_email.py:78 | the reply is `yes` exactly for a phishing verdict and `no` otherwise |
| EmailViews.Predict | backend/api/views_email.py:67-80 | missing fields read as empty strings and the reply is `yes` exactly when the classifier says phishing |
| OpenAiViews.Login | backend/api/views_openai.py:56-76 | missing credentials give 400, wrong ones 401, otherwise the user's own token and name |
| OpenAiViews.SubmitRedacted | backend/api/views_openai.py:91-134 | this variant stores the subject and content after server-side PII redaction, with no URLs |
| OpenAiViews.CleanSubmissionStoredAsSent | backend/api/views_openai.py:106-107 | a submission without `@` or decimal digits (Unicode category Nd) is stored exactly as sent |
| OpenAiViews.VerdictPadded | backend/api/views_openai.py:166-167 | the chat answer counts as `yes` exactly when its stripped text lower-cases to `yes` |
| OpenAiViews.PredictByChat | backend/api/views_openai.py:138-172 | the reply is `yes` or `no`, and `yes` exactly when the chat answer on the prompt says so |
| VoteViews.Tally | backend/api/views_vote.py:102-124 | a new vote adds one to its side; a changed vote also takes one from the other side, never going below zero |
| VoteViews.CastVote | backend/api/views_vote.py:68-137 | missing data, an unknown email and a repeated vote each have their own reply and change nothing; a recorded vote leaves the user holding exactly that vote |
| VoteViews.Vote | backend/api/views_vote.py:68-137 | the view changes the database as the vote function says and keeps the tables valid |
| VoteViews.CastVoteValid | backend/api/views_vote.py:95-124 | voting keeps ids unique and at most one vote per user and email |
| VoteViews.CastVoteTallied | backend/api/views_vote.py:95-124 | voting keeps every email's two counters equal to the number of ballots on each side |
| VoteViews.ChangeOfMind | backend/api/views_vote.py:95-124 | voting phishing and then legitimate leaves a single legitimate ballot and counters 0 and 1 |
| VoteViews.IntendedVoteStatus | backend/api/views_vote.py:98-100 | corrected: a repeated vote answers 409 and every other reply keeps its status; success exactly for a recorded vote |
| VoteViews.RemoveEmail | backend/api/views_vote.py:141-167 | unknown id gives 404, another user's email 403, otherwise exactly that row goes |
| VoteViews.DeleteEmail | backend/api/views_vote.py:141-167 | the view changes the email table as the removal function says, leaves the votes alone and keeps the tables valid |
| VoteViews.RemoveEmailMeaning | backend/api/views_vote.py:141-167 | deletion succeeds exactly for an existing email of the requester and removes only that email |
| VoteViews.RemoveEmailValid | backend/api/views_vote.py:154-155 | deletion keeps the tables valid and the remaining counters tallied |
| VoteViews.Flag | backend/api/views_vote.py:16-17 | a filter is on exactly when its parameter is `true` in any case |
| VoteViews.Listed | backend/api/views_vote.py:27-44 | a listed email copies the row (id, sender domain, subject, content, URLs, counters), is the requester's exactly when they own it, and has a vote type exactly when they voted |
| VoteViews.ListedVoteType | backend/api/views_vote.py:27-44 | the listed vote type is `phishing` or `legitimate` exactly when the requester holds that ballot |
| VoteViews.Selected | backend/api/views_vote.py:23-48 | the filters keep exactly the requester's emails (with `show_mine`) and the emails without ballots (with `show_unvoted`) |
| VoteViews.NewestFirst | backend/api/views_vote.py:51 | the ordering is a permutation with creation times descending |
| VoteViews.ListingMeaning | backend/api/views_vote.py:14-64 | the listing holds exactly the filtered emails, newest first, and with `show_mine` every row is the requester's |
| ApiClient.VoteEndpointOnly | frontend/gephiltephish/app/config/api.ts:25-34 | only the vote endpoint contains `/vote/`; no delete endpoint does |
| ApiClient.ErrorMessage | frontend/gephiltephish/app/config/api.ts:37-60 | the message is the body's `error`, else its `message`, else the status's fixed text |
| ApiClient.Classify | frontend/gephiltephish/app/config/api.ts:105-119 | 401 is an authentication error; 409 on a vote endpoint is a duplicate vote; the status and message are kept |
| ApiClient.ApiRequest | frontend/gephiltephish/app/config/api.ts:62-143 | 204 is no content; a malformed JSON body is a 500 format error; success carries the JSON data; a network failure is status 0; the error classes are as classified |
| ApiClient.ForbiddenIsPlain | frontend/gephiltephish/app/config/api.ts:105-119 | a 403 stays a plain error with its status |
| ApiClient.Headers | frontend/gephiltephish/app/config/api.ts:63-83 | caller headers win, the defaults fill the rest, and an `Authorization: Token …` header is added exactly when a token is stored |
| ApiClient.FetchWithAuth | frontend/gephiltephish/app/config/api.ts:145-157 | an authentication failure removes the stored token and goes to `/login`; anything else leaves the browser alone |
| AuthContext.AuthProvider.CheckAuth | frontend/gephiltephish/app/context/AuthContext.tsx:27-49 | the session is restored exactly when both the token and the name are stored, and loading ends |
| AuthContext.AuthProvider.Login | frontend/gephiltephish/app/context/AuthContext.tsx:55-76 | an accepted login stores token and name, sets the state and goes home; a failed request is rethrown and changes nothing |
| AuthContext.AuthProvider.Logout | frontend/gephiltephish/app/context/AuthContext.tsx:78-94 | whatever the server says, the stored token and name go, the state clears and the browser goes to `/login` |
| AuthRequired.LoginPath | frontend/gephiltephish/app/components/auth/AuthRequired.tsx:10-16 | the link always starts with `/login`; a path that already does is kept; any other path becomes the redirect parameter |
| AuthRequired.DefaultLoginPath | frontend/gephiltephish/app/components/auth/AuthRequired.tsx:10-16 | without a `redirectPath` property the link is the login page itself, `/login` |
| AuthRequired.LoginPathStable | frontend/gephiltephish/app/components/auth/AuthRequired.tsx:10-16 | building the link twice is building it once |
| EmailCard.LabelCount | frontend/gephiltephish/app/components/email/EmailCard.tsx:29-32 | the card's regex reads back exactly the count the extension wrote into a link label |
| EmailCard.SummaryTotal | frontend/gephiltephish/app/components/email/EmailCard.tsx:29-32 | the card's total over the extension's summary is the number of links found |
| EmailCard.HeadingCountsLinks | frontend/gephiltephish/app/components/email/EmailCard.tsx:79-94 | the links heading of a submitted email shows the number of links the extension found |
| EmailCard.LinksHeading | frontend/gephiltephish/app/components/email/EmailCard.tsx:79-94 | the heading is shown exactly when there are entries |
| EmailCard.VoteButtons | frontend/gephiltephish/app/components/email/EmailCard.tsx:132-153 | each button casts its own side; it is disabled and says `Current` exactly when that is the user's vote; never both |
| EmailCard.CurrentVoteLine | frontend/gephiltephish/app/components/email/EmailCard.tsx:123-130 | the line is shown exactly to a voter, and ends with the click hint exactly when neither button is disabled |
| EmailCard.DeleteButton | frontend/gephiltephish/app/components/email/EmailCard.tsx:41-51 | the delete control appears exactly on the user's own emails and deletes that email |
| VotePage.HandleError | frontend/gephiltephish/app/vote/page.tsx:44-67 | a duplicate vote is a warning, an authentication error an info asking to log in again, any other API error an error with its message, anything else the fixed error |
| VotePage.FiltersReachBackend | frontend/gephiltephish/app/vote/page.tsx:69-85 | for all four filter settings the backend reads back exactly the flags the page sent |
| VotePage.Page.Render | frontend/gephiltephish/app/vote/page.tsx:122-171 | a spinner while auth loads, a login link back to `/vote` without a user, and the list with its alert exactly when signed in and not loading; a list reply without a body leaves no list (`None`) |
| VotePage.Page.FetchEmails | frontend/gephiltephish/app/vote/page.tsx:69-85 | the request goes to the filtered list endpoint; success replaces the list, failure sets the alert |
| VotePage.Page.SetFilters | frontend/gephiltephish/app/vote/page.tsx:38-42 | changing a filter stores it and refetches exactly when a user is signed in |
| VotePage.Page.HandleVote | frontend/gephiltephish/app/vote/page.tsx:87-104 | success refetches and clears the alert; a duplicate vote keeps the list and shows the warning; every other failure, an authentication error included, refetches; after any refetch the list is the reply's (or the old list when the refetch fails), and after a failed vote the alert is the refetch's own error or cleared |
| VotePage.Page.HandleDelete | frontend/gephiltephish/app/vote/page.tsx:106-120 | nothing happens unless confirmed; then the email's delete endpoint is called; a failure shows its alert and keeps the list; success refetches, leaving the reply's list (or the old one when the refetch fails) and no alert |
| VotePage.DuplicateVoteAsWritten | backend/api/views_vote.py:98-100 | as written: a repeated vote reaches the page as a plain 400 error, shown as an error alert, and the list is refetched |
| VotePage.DuplicateVoteIntended | frontend/gephiltephish/app/config/api.ts:111-115 | corrected: with 409 the page gets a duplicate-vote error, shows a warning and keeps the list |

## Left out

- The DOM is a parameter: the text `htmlToText` extracts through it, and the `href`s `extractURLs` finds
  with `querySelectorAll`. The tree surgery that removes scripts and styles is not modelled.
- The WHATWG URL parser behind `new URL(...)` is a parameter (`hostOf`). `JSON.parse`/`JSON.stringify`
  are a parameter of the popup's load step.
- The built-in e-mail, phone and SSN regexes of the popup and of `redact_pii` are matcher parameters
  with a replace-all engine. The custom patterns, URLs and HTML entities are replaced concretely.
- Upper/lower case and `isalnum` are ASCII only. Python's and JavaScript's Unicode case tables are not
  modelled.
- `URLSearchParams`: a malformed escape in a value is an error in the model. The browser repairs it.
- The following are not modelled: I/O, `fetch`, `messenger.*`, `browser.storage`, window creation,
  `console` logging, timers, and the interleaving of asynchronous handlers. Each `fetch` reply is a
  parameter.
- `Background.Dispatcher.Attempt`: the two asynchronous sends are atomic steps, so a second menu click
  during a send is not modelled.
- The pickled classifier and the chat model are functions passed in. Loading the pickle and the OpenAI
  HTTP call are not modelled.
- Django's ORM is not modelled. The tables are sequences with unique ids. The `JOIN` that can list an
  email twice when several users voted is not reproduced, and the model lists each email once.
- `VoteViews.Selected`: `show_unvoted` keeps emails no user has voted on, which is what the ORM filter
  does. It does not mean "not voted on by the requester".
- `VoteViews.RemoveEmail`: deleting an email leaves its ballots in the vote table. The database
  cascade is not modelled, because the `models.py` at hand declares no `Vote` model.
- `EmailViews.SubmitEmail`: field validation inside `Email.objects.create` is a predicate parameter
  (`accepts`). The unexpected-exception 500 path is not modelled.
- `OpenAiViews.Login`: Django's `authenticate` and the token table are parameters. Registration is not
  part of this model.
- `OpenAiViews`: its `get_emails` and `logout` views are outside this model. `get_emails` has a twin in
  `views_vote.py`, modelled as `VoteViews.Listing`. No logout view is routed in backend/api/urls.py;
  the frontend's logout is `AuthContext.AuthProvider.Logout`.
- VoteViews.CastVote, VoteViews.RemoveEmail, EmailViews.Predict, OpenAiViews.SubmitRedacted and
  OpenAiViews.PredictByChat: the catch-all `except Exception` replies with status 500 are not modelled
  (backend/api/views_vote.py:134-137 and 162-167, backend/api/views_email.py:79-80,
  backend/api/views_openai.py:133-134 and 171-172). Ids are typed integers, so an id such as `"abc"`,
  on which `Email.objects.get` raises, cannot be written. A chat reply without content, on which
  `.strip()` raises, is not modelled either.
- `VoteViews.DeleteEmail`: the reply status is 200, as in the view.
- `VoteViews.CastVote`: a non-boolean `is_phishing` value is not modelled; the model's parameter is
  `Option<bool>`.
- `AuthContext.AuthProvider.Login`: the catch block that would rethrow a non-API error cannot be
  reached. The username stored is the reply's, taken as always present.
- `VotePage.Page.Render`: `setEmails(null)` after a list reply without a body is kept as no list
  (`None`). The crash the real render would hit on it is not modelled.
- `EmailCard.LinkCount`: counts are unbounded naturals. The precision limit of `parseInt` on very long
  digit strings is not modelled.
- `Redaction.Session.Load` keeps the double decoding of the source, so the popup behaves as shipped. The
  corrected one-decode reading (`Redaction.IntendedField`) is stated beside it under "Findings".
- `VoteViews.CastVote` keeps the 400 status of the source for a repeated vote. The corrected status is
  `VoteViews.IntendedVoteStatus`.
- `EmailCard.CurrentVoteLine` states the line's prefix and its hint, not the styling of the vote type.

- Preprocessing.ExtractURLs: the domain counter `domainCounts` is a plain JavaScript object, modelled as
  a map with a separate first-seen order. Three object behaviours are not modelled. A host equal to an
  inherited key such as `constructor` starts from the inherited function, so its count becomes a string
  like `function Object() { [native code] }1`. An assignment to `__proto__` is dropped. `Object.entries`
  lists integer-like keys first, in ascending order, before the others in insertion order.
- Preprocessing.SummaryEntries: the entries are in first-seen order and the counts are exact, which holds
  only for hosts that are not inherited object keys, `__proto__` or integer-like (see `ExtractURLs`).
- Preprocessing.CountsOfMeaning: the map holds the number of occurrences under each host; the source's
  object differs for inherited keys and `__proto__` (see `ExtractURLs`).
- Preprocessing.CountMatches: the tally is over a map, with the same object exceptions as `ExtractURLs`.
- Preprocessing.FormatCounts: the entries follow first-seen order; `Object.entries` puts integer-like keys
  first (see `ExtractURLs`).
- UriCodec.EncodeURIComponent: a Dafny `char` is a Unicode scalar value, so a string with a lone
  surrogate cannot be written. On such a string `encodeURIComponent` throws `URIError`
  (extension/preprocessing.js:12), which aborts the hand-off in extension/background.js:88-90; that
  path is not modelled.

## Findings

| source | as written | input that shows it | evidently intended | confidence | as-written member | corrected member |
|---|---|---|---|---|---|---|
| extension/redaction.js:130-131 | `URLSearchParams.get` already decodes each value, then `safeDecodeURIComponent` decodes it a second time | a subject whose text is `%41` reaches the popup as `A` | one decoding, so that every field arrives as sent | not executed | Redaction.DoubleDecodeExample | Redaction.IntendedRoundTrip |
| backend/api/views_vote.py:98-100 | a repeated vote answers 400 | the same user voting phishing twice on one email | 409, which the client classifies as a duplicate vote (frontend/gephiltephish/app/config/api.ts:111-115) and the page shows as a warning without refetching | not executed | VotePage.DuplicateVoteAsWritten | VoteViews.IntendedVoteStatus, VotePage.DuplicateVoteIntended |
