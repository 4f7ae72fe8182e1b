# Endless chain story: the submission path

This project models the submission path of a collaborative chain story. The
page keeps the story's sentences, the newest summary, the text being typed,
the error shown, a loading flag and the visitor's device identifier. When a
sentence is submitted, `addSentence` does three things:

- It trims the input and runs the local checks in a fixed order: empty, under
  10 code units, over 200, and the device's newest sentence less than an hour
  old.
- It asks the content validator for a verdict.
- On a "yes" it appends the corrected sentence to the `dailyStory` collection
  and overwrites the `summary/shortsummary` document.

The validator is a server action. It joins the story texts with single
spaces, embeds the story and the candidate in a fixed prompt, sends the prompt
to a language model, strips the code fences the model may put around its JSON,
trims the result and parses it.

The Dafny modules follow that structure:

- `JsText`: JavaScript strings as sequences of UTF-16 code units.
  - `String.prototype.trim` over the ECMAScript whitespace and line-terminator
    set, which is also what the regular expression `\s` matches.
  - `Array.prototype.join`, with `split` as its inverse.
- `Story`: the `Sentence` record (`text`, `createdAt` in epoch milliseconds,
  `deviceIdentifier`), and the stable newest-first sort that
  `[...sentences].sort((a, b) => b - a)` performs, written as an insertion sort.
- `Validator`: the story context and the prompt.
  - The prompt is a `Template` cut at its three substitution points, and the
    prompt's literal text is one instance of it.
  - The fence removal `replace(/^```json\s*|```\s*$/g, '')` and the trim
    before `JSON.parse`.
  - `Validate`, which takes the model call and `JSON.parse` as parameters.
- `Admission`: the pure rules of the form.
  - `CheckSubmission`: the local checks and their messages.
  - The rate limit, on the sorted copy, and a sort-free reference definition
    of it.
  - `Submit`: the outcome of one whole run, given the validator's answer and
    whether each store write throws.
- `Home`: the imperative parts.
  - A `Store` class whose `AddDoc` and `UpdateSummary` change the collection
    and the summary document in place.
  - A `Home` class holding the component's state. Its `AddSentence` is proved
    to leave exactly the state that `Admission.Submit` describes.

Foreign calls are parameters:

- the two clock reads: `now` is `Date.now()` in the rate limit, and `stamp` is
  the `new Date()` stored with the sentence;
- the model call (`generate`, with `None` when it throws);
- `JSON.parse` (`parse`, with `None` when it throws);
- the validator as the page sees it (`validate`);
- whether `addDoc` and `updateDoc` throw.

A missing summary document makes `updateDoc` throw, and the model treats it
that way.

A malformed reply is not turned into a rejection: `JSON.parse` throws
(app/services/validate.ts:27) and the `catch` (app/page.tsx:130-132) shows the
generic apology.

## Model

| member | source | states |
|---|---|---|
| JsText.Trim | app/page.tsx:82 | the trimmed string is no longer than the input, neither begins nor ends with whitespace, and is empty exactly when the input is all whitespace |
| JsText.TrimSplits | app/page.tsx:82 | the input is the leading whitespace, then the trimmed string, then the trailing whitespace |
| JsText.TrimUnique | app/page.tsx:82 | whitespace + r + whitespace trims to r whenever r neither begins nor ends with whitespace |
| JsText.TrimIdempotent | app/services/validate.ts:27 | trimming twice is trimming once |
| JsText.TrimIgnoresLeadingWhitespace | app/services/validate.ts:26-27 | whitespace put in front does not change the trimmed result |
| JsText.Join | app/services/validate.ts:11 | the joined length is the parts' total length plus one separator between each pair (its shape in `JoinShape`, its inverse in `SplitJoin` and `JoinSplit`) |
| JsText.JoinShape | app/services/validate.ts:11 | `join(" ")` of no parts is empty and of one part is that part; otherwise its length is the parts' total length plus one separator between each pair, and it begins with the first part and ends with the last |
| JsText.JoinAppend | app/services/validate.ts:11 | joining one more part appends one separator and that part |
| JsText.Split | app/services/validate.ts:11 | splitting, the inverse used for `join`, yields at least one piece, and no piece contains the separator |
| JsText.SplitJoin | app/services/validate.ts:11 | splitting a join gives the parts back when no part contains the separator |
| JsText.JoinSplit | app/services/validate.ts:11 | joining a split gives the string back |
| JsText.JoinLocates | app/services/validate.ts:11 | each part occurs in the join right after the parts before it and one separator after each of them |
| Story.Texts | app/services/validate.ts:11 | `sentences.map(s => s.text)` has the same length and, at each index, that sentence's text |
| Story.InsertBy | app/page.tsx:102 | inserting into a list sorted largest-key-first keeps it sorted and adds exactly the new element |
| Story.SortDescBy | app/page.tsx:102 | the sort's result is ordered largest key first and is a permutation of its input |
| Validator.StoryText | app/services/validate.ts:11 | the story context of a non-empty story is as long as all texts plus one space between each pair |
| Validator.StoryTextShape | app/services/validate.ts:11 | the story context is empty for no sentences and is the text itself for one; otherwise it is the first text, a space and the context of the rest, with the matching length, beginning and end |
| Validator.StoryTextAppend | app/services/validate.ts:11 | a new sentence extends the story context by one space and its text |
| Validator.StoryTextSplits | app/services/validate.ts:11 | when no text holds a space, the context splits back into the texts, so no sentence is lost or merged |
| Validator.StoryTextLocates | app/services/validate.ts:11 | for any texts, each sentence's text occurs in the context right after the texts before it and one space after each of them |
| Validator.Fill | app/services/validate.ts:12-23 | the prompt is as long as the template's four pieces, the story and the candidate twice (where each sits is in `FillEmbeds`) |
| Validator.Prompt | app/services/validate.ts:12-23 | the story and the candidate can be read back out of the prompt actually sent |
| Validator.FillEmbeds | app/services/validate.ts:12-23 | the filled prompt contains the story at the first substitution and the candidate at the second and third |
| Validator.FillStoryRoundTrip | app/services/validate.ts:12-23 | the story can be read back out of the prompt, given the candidate's length |
| Validator.FillCandidateRoundTrip | app/services/validate.ts:12-23 | the candidate can be read back out of the prompt, given the story's length |
| Validator.OpeningFenceEnd | app/services/validate.ts:26 | the alternative `^```json\s*` matches exactly when the reply begins with "```json", and its match ends at the first non-whitespace code unit after it |
| Validator.FindClosingFence | app/services/validate.ts:26 | the scan stops at the first position where the alternative ```` ```\s*$ ```` matches, or at the end when there is none |
| Validator.RemoveFences | app/services/validate.ts:26 | the `replace` keeps one piece of the reply: it starts where the opening match ends and stops at the first closing match behind that, or at the end |
| Validator.StripFences | app/services/validate.ts:26-27 | the clean-up never lengthens the reply |
| Validator.ClosingFenceUnique | app/services/validate.ts:26 | the closing alternative matches at one position at most |
| Validator.OpeningFenceOnlyAtStart | app/services/validate.ts:26 | without the opening fence at the start, only a closing match is removed |
| Validator.BareFenceNotOpening | app/services/validate.ts:26 | a bare "```" at the start that is not followed by "json" is not removed as an opening fence |
| Validator.UppercaseTagNotOpening | app/services/validate.ts:26 | "```JSON" is not an opening fence: the match is case-sensitive |
| Validator.TrailingFenceRemoved | app/services/validate.ts:26 | a fence followed only by whitespace is removed together with everything after it, and nothing else is removed at the end |
| Validator.ContentKept | app/services/validate.ts:26 | everything from the end of the opening match up to any code unit that is neither whitespace nor a backtick is kept unchanged |
| Validator.InteriorFenceKept | app/services/validate.ts:26 | a fence inside the reply, with real content after it, is kept |
| Validator.UnfencedOnlyTrimmed | app/services/validate.ts:26-27 | a reply with neither fence is changed only by the trim |
| Validator.FencedReplyUnwrapped | app/services/validate.ts:26-27 | "```json", whitespace, a JSON text without backticks, "```" and whitespace reach `JSON.parse` as the trimmed JSON text |
| Validator.ValidateUnwrapsFencedReply | app/services/validate.ts:24-28 | a model reply wrapped in the usual fences is parsed as its trimmed JSON text |
| Validator.Validate | app/services/validate.ts:8-28 | a model call that throws makes the validation throw (the reply it hands to `JSON.parse` is stated in `ValidateUnwrapsFencedReply` and `ValidateTrimsUnfencedReply`) |
| Validator.ValidateTrimsUnfencedReply | app/services/validate.ts:24-28 | a model reply with neither fence is parsed as the reply trimmed and otherwise unchanged |
| Admission.NewestFirst | app/page.tsx:102 | the copy is sorted newest first and is a permutation of the story |
| Admission.FindByDevice | app/page.tsx:103 | `find` returns nothing exactly when no sentence has the device, and otherwise the device's first sentence in list order |
| Admission.LatestFrom | app/page.tsx:102-103 | the sort-free reference: nothing exactly when the device has no sentence; otherwise one of its sentences that none of its others is newer than, and no earlier sentence of the device is as new |
| Admission.FindAfterInsert | app/page.tsx:102-103 | after an insertion step of the sort, the lookup prefers the inserted sentence unless what it found before is strictly newer |
| Admission.NewestFirstFindsLatest | app/page.tsx:102-103 | sorting and then `find` gives the device's newest sentence; on equal times, the one earlier in the story |
| Admission.RateLimited | app/page.tsx:102-105 | the test as written, on the sorted copy and with `find`, holds exactly when the sort-free newest sentence of the device is less than an hour older than `now` |
| Admission.RateLimitedIff | app/page.tsx:102-109 | a submission is rate-limited exactly when some sentence of the device is less than one hour older than `now` |
| Admission.NewDeviceNotLimited | app/page.tsx:103-105 | a device with no sentence is never rate-limited |
| Admission.HourOldSentenceDoesNotBlock | app/page.tsx:105 | the limit is strict: a sentence exactly 3 600 000 ms old does not block, and one a millisecond younger does |
| Admission.CheckSubmission | app/page.tsx:82-109 | admitted exactly when the trimmed input has 10 to 200 code units and the device has posted nothing in the last hour, and then the candidate is the trimmed input; otherwise each failing check gives its own message, in the code's order |
| Admission.Submit | app/page.tsx:79-136 | a sentence is appended exactly when the checks admit, the validator answers "yes" and `addDoc` succeeds, and it is the validator's corrected sentence with the stamp and the device; the summary is written exactly when, in addition, `updateDoc` succeeds; the input is cleared and the error reset exactly then |
| Admission.SubmitChecked | app/page.tsx:112-133 | after the checks have passed: a sentence is appended exactly when the reply is "yes" and `addDoc` succeeds, and the summary is written exactly when `updateDoc` also succeeds; the error is the generic apology when validation or a write throws, and the reply's message on any verdict other than "yes" |
| Admission.RefusedBeforeValidation | app/page.tsx:84-109 | a refused submission shows the check's message, writes nothing, and does not depend on the validator |
| Admission.AdmittedGoesOn | app/page.tsx:112-113 | an admitted submission continues to validation with the trimmed input |
| Admission.RejectionWritesNothing | app/page.tsx:113-133 | when validation throws, or `addDoc` throws after a "yes", the generic apology is shown; when the verdict is not "yes", the validator's message is shown; none of these writes anything |
| Admission.CapitalYesRejected | app/page.tsx:114 | `isValid` "Yes" is a rejection: the comparison is exact |
| Admission.PartialWriteKept | app/page.tsx:115-133 | when `updateDoc` throws after `addDoc` succeeded, the sentence stays, the summary is not written, the apology shows and the input is kept |
| Admission.SecondSubmissionRefused | app/page.tsx:102-109 | once a device's sentence is in the fetched `sentences`, any well-sized submission from that device within the hour is refused with the rate-limit message |
| Home.Store.constructor | config/firebase.ts:11 | the store starts with the given collection and summary document |
| Home.Store.AddDoc | app/page.tsx:115-119 | a successful `addDoc` appends the document, a failing one changes nothing, and the summary is untouched |
| Home.Store.UpdateSummary | app/page.tsx:120-122 | `updateDoc` succeeds exactly when it does not fail and the document exists, and then overwrites the text; the collection is untouched |
| Home.Home.constructor | app/page.tsx:29-35 | the component starts with no sentences, no summary, empty input, no error, no device identifier and not loading |
| Home.Home.SetDeviceIdentifier | app/page.tsx:37-43 | the resolved visitor id becomes the device identifier |
| Home.Home.HandleInputChange | app/page.tsx:138-140 | typing replaces the input |
| Home.Home.FetchSentences | app/page.tsx:56-72 | a successful read sets the sentences to a permutation of the stored ones, oldest first; a failed one keeps them |
| Home.Home.FetchSummary | app/page.tsx:45-54 | the summary is taken only when the read succeeds and the document exists |
| Home.Home.CheckInput | app/page.tsx:82-109 | the early-returning checks compute exactly `CheckSubmission` |
| Home.Home.ShowRefusal | app/page.tsx:84-109 | an early return leaves the error, the input and the store as `Submit` says for a refused input: the check's message and nothing else |
| Home.Home.SubmitCandidate | app/page.tsx:112-133 | the `try` block, entered with an admitted candidate, leaves the error, the input and the store as `Submit` says |
| Home.Home.AddSentence | app/page.tsx:79-136 | one run leaves the error, the input, the collection and the summary document exactly as `Submit` says, ends with loading off, and leaves the fetched sentences, the summary and the device identifier alone |

## Left out

- Rendering: the JSX, dialogs, animations, images, and the event's `preventDefault`. None of it affects the state.
- Firestore: it is an in-memory `Store`, and each read or write that can throw is a boolean parameter. The network, document ids and the `Timestamp` conversion are not modelled. Of the `summary/shortsummary` document, only its `text` field is modelled.
- Home.Home.FetchSentences: states sorted by `createdAt` and a permutation, not the order of tied timestamps. Firestore breaks those ties by document id, which is not modelled.
- FingerprintJS: loading the library and computing the visitor id are not modelled. The id is the argument of `SetDeviceIdentifier`.
- The Gemini client, its API key from the environment and the model name are not modelled. The model call is the parameter `generate`.
- `JSON.parse` is the parameter `parse`. The reply's four fields are modelled as strings, so a reply with a missing or non-string field is not represented. In JavaScript such a field is `undefined`, with these effects:
  - a rejection without `message` shows no error;
  - a "yes" without `sentence` makes `addDoc` throw, because config/firebase.ts does not pass `ignoreUndefinedProperties`;
  - a "yes" without `updatedSummary` makes `updateDoc` throw after the append.
  The model covers the last two only as `addFails` and `updateFails` being true.
- Home.Home.AddSentence: the `fetchSummary()` and `fetchSentences()` calls that follow a success are not awaited. They are the separate methods `FetchSummary` and `FetchSentences`, so `AddSentence` leaves the fetched state alone.
- The freshness of the fetched sentences: the rate limit reads the component's fetched `sentences` (app/page.tsx:29, 102), not the store. Only the fetch on mount (app/page.tsx:74-77) and the un-awaited `fetchSentences()` after a full success (app/page.tsx:125) refresh that list. A failed refresh is only logged (app/page.tsx:69-71), and an `updateDoc` that throws skips the refresh after the append. So the limit never sees a sentence that no refresh brought in, including the device's own last one.
- Asynchrony: the awaits, the overlap of two submissions and the intermediate renders are not modelled. `isLoading` is modelled only at its start and end values.
- `lastUpdated` and moment's `fromNow` are not modelled. They are display only.
- `console.error` logging is I/O.
- JavaScript numbers are unbounded integers here. Epoch milliseconds and lengths stay far below 2^53, where doubles are exact.
- Units: a character outside the Basic Multilingual Plane would become U+FFFD. No literal in the model contains one.
