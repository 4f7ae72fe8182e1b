/**
 * The admission rules of the submission form, as pure functions: the checks
 * run on the trimmed input in a fixed order (empty, too short, too long, rate
 * limit), the rate limit found by sorting a copy of the story newest first and
 * taking the first sentence of the caller's device, and the outcome of a whole
 * run once the validator's reply and the store's failures are known.
 */
module Admission {
  import opened Wrappers
  import opened JsText
  import opened Story
  import opened Validator

  /** One hour in milliseconds: one submission per device per this window. */
  const HourMs: int := 60 * 60 * 1000
  const MinLength: nat := 10
  const MaxLength: nat := 200

  const EmptyMessage: JsString := Units("Please enter a sentence.")
  const TooShortMessage: JsString := Units(
      "Please ensure your sentence " +
      "is at least 10 characters " +
      "long.")
  const TooLongMessage: JsString := Units(
      "Your sentence should be " +
      "within 200 characters.")
  const RateLimitMessage: JsString := Units(
      "Each device can submit once " +
      "per hour to ensure everyone " +
      "gets a fair chance. Please " +
      "return later to contribute " +
      "again. Thank you for your " +
      "patience!")
  const FailureMessage: JsString := Units(
      "We apologize, but we couldn't " +
      "add your sentence. Please " +
      "try again later.")

  /** "yes", the only `isValid` value that admits a sentence. */
  const Yes: JsString := [0x79, 0x65, 0x73]

  /** `[...sentences].sort((a, b) => b.createdAt - a.createdAt)`: a sorted copy, newest first. */
  function NewestFirst(ss: seq<Sentence>): (r: seq<Sentence>)
    ensures SortedDescBy(r, CreatedAt)
    ensures multiset(r) == multiset(ss)
  {
    SortDescBy(ss, CreatedAt)
  }

  /** `ss.find(s => s.deviceIdentifier === dev)`: the first sentence of the device. */
  function FindByDevice(ss: seq<Sentence>, dev: JsString): (r: Option<Sentence>)
    ensures r.None? <==> forall i :: 0 <= i < |ss| ==> ss[i].deviceIdentifier != dev
    ensures r.Some? ==> exists i :: 0 <= i < |ss| && ss[i] == r.value && r.value.deviceIdentifier == dev
                                    && forall j :: 0 <= j < i ==> ss[j].deviceIdentifier != dev
  {
    if ss == [] then None
    else if ss[0].deviceIdentifier == dev then Some(ss[0])
    else
      var r := FindByDevice(ss[1..], dev);
      assert forall i :: 0 <= i < |ss| - 1 ==> ss[1..][i] == ss[i + 1];
      r
  }

  /**
   * Which of `x` and `found` (the best of a later part of the list) is the
   * device's newest: `x` unless `found` is strictly newer, so that on equal
   * times the one earlier in the list wins.
   */
  function Prefer(x: Sentence, found: Option<Sentence>, dev: JsString): Option<Sentence>
  {
    if x.deviceIdentifier != dev then found
    else if found.Some? && found.value.createdAt > x.createdAt then found
    else Some(x)
  }

  /**
   * The device's newest sentence, stated without sorting: `None` exactly when
   * the device has none, and otherwise the one of its sentences that no other
   * of its sentences is newer than and that comes first among those.
   */
  function LatestFrom(ss: seq<Sentence>, dev: JsString): (r: Option<Sentence>)
    ensures r.None? <==> forall i :: 0 <= i < |ss| ==> ss[i].deviceIdentifier != dev
    ensures r.Some? ==> r.value in ss && r.value.deviceIdentifier == dev
    ensures r.Some? ==> forall i :: 0 <= i < |ss| && ss[i].deviceIdentifier == dev ==> ss[i].createdAt <= r.value.createdAt
    ensures r.Some? ==> exists i :: NoneAsNewBefore(ss, dev, i) && ss[i] == r.value
  {
    if ss == [] then None
    else
      var rest := LatestFrom(ss[1..], dev);
      assert forall i :: 0 <= i < |ss| - 1 ==> ss[1..][i] == ss[i + 1];
      assert ss == [ss[0]] + ss[1..];
      PreferredIsFirstNewest(ss[0], ss[1..], rest, dev);
      Prefer(ss[0], rest, dev)
  }

  /** No sentence of the device before index `i` is as new as the one at `i`. */
  predicate NoneAsNewBefore(ss: seq<Sentence>, dev: JsString, i: int) {
    0 <= i < |ss| && forall j :: 0 <= j < i && ss[j].deviceIdentifier == dev ==> ss[j].createdAt < ss[i].createdAt
  }

  /**
   * If `found` is the earliest of the newest device sentences of `tail`, then
   * what `Prefer` picks is the earliest of the newest ones of `[x] + tail`.
   */
  lemma PreferredIsFirstNewest(x: Sentence, tail: seq<Sentence>, found: Option<Sentence>, dev: JsString)
    requires found.Some? ==> exists i :: NoneAsNewBefore(tail, dev, i) && tail[i] == found.value
    ensures var r := Prefer(x, found, dev);
      r.Some? ==> exists i :: NoneAsNewBefore([x] + tail, dev, i) && ([x] + tail)[i] == r.value
  {
    var ss := [x] + tail;
    var r := Prefer(x, found, dev);
    if r.Some? && r != Some(x) {
      var i :| NoneAsNewBefore(tail, dev, i) && tail[i] == found.value;
      forall j | 0 <= j < i + 1 && ss[j].deviceIdentifier == dev ensures ss[j].createdAt < ss[i + 1].createdAt {
        if j > 0 {
          assert ss[j] == tail[j - 1];
        }
      }
      assert NoneAsNewBefore(ss, dev, i + 1);
    } else if r.Some? {
      assert NoneAsNewBefore(ss, dev, 0);
    }
  }

  /**
   * Looking the device up after an insertion into the newest-first copy is
   * preferring the inserted sentence to what the lookup found before.
   */
  lemma {:induction false} FindAfterInsert(x: Sentence, t: seq<Sentence>, dev: JsString)
    requires SortedDescBy(t, CreatedAt)
    ensures FindByDevice(InsertBy(x, t, CreatedAt), dev) == Prefer(x, FindByDevice(t, dev), dev)
  {
    if t == [] || CreatedAt(x) >= CreatedAt(t[0]) {
      assert InsertBy(x, t, CreatedAt) == [x] + t;
      FoundNotNewerThanHead(t, dev);
    } else {
      var rest := t[1..];
      assert SortedDescBy(rest, CreatedAt);
      assert InsertBy(x, t, CreatedAt) == [t[0]] + InsertBy(x, rest, CreatedAt);
      FindAfterInsert(x, rest, dev);
      assert ([t[0]] + InsertBy(x, rest, CreatedAt))[1..] == InsertBy(x, rest, CreatedAt);
    }
  }

  /** In a newest-first list, what the lookup finds is no newer than the head. */
  lemma FoundNotNewerThanHead(t: seq<Sentence>, dev: JsString)
    requires SortedDescBy(t, CreatedAt)
    ensures FindByDevice(t, dev).Some? ==> FindByDevice(t, dev).value.createdAt <= t[0].createdAt
  {
    var found := FindByDevice(t, dev);
    if found.Some? {
      var i :| 0 <= i < |t| && t[i] == found.value;
      assert CreatedAt(t[0]) >= CreatedAt(t[i]);
    }
  }

  /**
   * What the sort and the `find` compute: the first sentence of the device in
   * the newest-first copy is the device's newest sentence, the one earliest in
   * the list when several share the newest time.
   */
  lemma {:induction false} NewestFirstFindsLatest(ss: seq<Sentence>, dev: JsString)
    ensures FindByDevice(NewestFirst(ss), dev) == LatestFrom(ss, dev)
  {
    if ss != [] {
      NewestFirstFindsLatest(ss[1..], dev);
      FindAfterInsert(ss[0], SortDescBy(ss[1..], CreatedAt), dev);
    }
  }

  /** The rate-limit test as the form runs it, on the sorted copy. */
  function RateLimited(ss: seq<Sentence>, dev: JsString, now: int): (b: bool)
    ensures b <==> var latest := LatestFrom(ss, dev); latest.Some? && now - latest.value.createdAt < HourMs
  {
    NewestFirstFindsLatest(ss, dev);
    var last := FindByDevice(NewestFirst(ss), dev);
    last.Some? && now - last.value.createdAt < HourMs
  }

  /** The rule the test implements: the device contributed less than an hour ago. */
  predicate SubmittedWithinHour(ss: seq<Sentence>, dev: JsString, now: int) {
    exists i :: 0 <= i < |ss| && ss[i].deviceIdentifier == dev && now - ss[i].createdAt < HourMs
  }

  /**
   * A submission is rate-limited exactly when some sentence of the device is
   * younger than one hour; one exactly an hour old does not block.
   */
  lemma RateLimitedIff(ss: seq<Sentence>, dev: JsString, now: int)
    ensures RateLimited(ss, dev, now) <==> SubmittedWithinHour(ss, dev, now)
  {
    var latest := LatestFrom(ss, dev);
    if latest.Some? && now - latest.value.createdAt < HourMs {
      var i :| 0 <= i < |ss| && ss[i] == latest.value;
    }
  }

  /** A device without any sentence is never rate-limited. */
  lemma NewDeviceNotLimited(ss: seq<Sentence>, dev: JsString, now: int)
    requires forall i :: 0 <= i < |ss| ==> ss[i].deviceIdentifier != dev
    ensures !RateLimited(ss, dev, now)
  {
    RateLimitedIff(ss, dev, now);
  }

  /** A sentence exactly one hour old does not block its device. */
  lemma HourOldSentenceDoesNotBlock(text: JsString, dev: JsString, now: int)
    ensures !RateLimited([Sentence(text, now - HourMs, dev)], dev, now)
    ensures RateLimited([Sentence(text, now - HourMs + 1, dev)], dev, now)
  {
    RateLimitedIff([Sentence(text, now - HourMs, dev)], dev, now);
    RateLimitedIff([Sentence(text, now - HourMs + 1, dev)], dev, now);
  }

  /** The verdict of the local checks: the candidate to validate, or the error to show. */
  datatype Check = Admitted(candidate: JsString) | Refused(message: JsString)

  /**
   * The checks of the form, short-circuiting in this order: empty after
   * trimming, shorter than 10 code units, longer than 200, and submitted by
   * this device less than an hour ago.
   */
  function CheckSubmission(input: JsString, ss: seq<Sentence>, dev: JsString, now: int): (c: Check)
    ensures c.Admitted? <==> MinLength <= |Trim(input)| <= MaxLength && !SubmittedWithinHour(ss, dev, now)
    ensures c.Admitted? ==> c.candidate == Trim(input) && MinLength <= |c.candidate| <= MaxLength
    ensures AllWhitespace(input) ==> c == Refused(EmptyMessage)
    ensures 0 < |Trim(input)| < MinLength ==> c == Refused(TooShortMessage)
    ensures |Trim(input)| > MaxLength ==> c == Refused(TooLongMessage)
    ensures MinLength <= |Trim(input)| <= MaxLength && SubmittedWithinHour(ss, dev, now)
            ==> c == Refused(RateLimitMessage)
  {
    RateLimitedIff(ss, dev, now);
    var t := Trim(input);
    if t == [] then Refused(EmptyMessage)
    else if |t| < MinLength then Refused(TooShortMessage)
    else if |t| > MaxLength then Refused(TooLongMessage)
    else if RateLimited(ss, dev, now) then Refused(RateLimitMessage)
    else Admitted(t)
  }

  /**
   * What one run of the form leaves behind: the error shown (`None`: cleared),
   * whether the input is cleared, the sentence appended to the story and the
   * summary written, if any.
   */
  datatype Outcome = Outcome(error: Option<JsString>, clearInput: bool,
                             appended: Option<Sentence>, newSummary: Option<JsString>)

  /**
   * One run of the form on `input`, with `validate` standing for the server
   * action `validate(sentences, trimmedSentence)` (`Validator.Validate` once
   * the model call and `JSON.parse` are fixed), and the two store writes failing as
   * `addFails` and `updateFails` say.  `now` is the clock read by the rate
   * limit and `stamp` the one stored with the new sentence.
   */
  function Submit(input: JsString, ss: seq<Sentence>, dev: JsString, now: int, stamp: int,
                  validate: (seq<Sentence>, JsString) -> Option<Reply>,
                  addFails: bool, updateFails: bool): (o: Outcome)
    ensures var reply := validate(ss, Trim(input));
      o.appended.Some? <==> CheckSubmission(input, ss, dev, now).Admitted? && reply.Some?
                            && reply.value.isValid == Yes && !addFails
    ensures o.appended.Some? ==>
      o.appended.value == Sentence(validate(ss, Trim(input)).value.sentence, stamp, dev)
    ensures o.newSummary.Some? <==> o.appended.Some? && !updateFails
    ensures o.newSummary.Some? ==>
      o.newSummary.value == validate(ss, Trim(input)).value.updatedSummary
    ensures o.clearInput <==> o.newSummary.Some?
    ensures o.error.None? <==> o.newSummary.Some?
  {
    match CheckSubmission(input, ss, dev, now)
    case Refused(message) => Outcome(Some(message), false, None, None)
    case Admitted(candidate) => SubmitChecked(ss, candidate, dev, stamp, validate, addFails, updateFails)
  }

  /** The part of `Submit` after the checks passed: validation and the two writes. */
  function SubmitChecked(ss: seq<Sentence>, candidate: JsString, dev: JsString, stamp: int,
                         validate: (seq<Sentence>, JsString) -> Option<Reply>,
                         addFails: bool, updateFails: bool): (o: Outcome)
    ensures var reply := validate(ss, candidate);
      o.appended.Some? <==> reply.Some? && reply.value.isValid == Yes && !addFails
    ensures o.appended.Some? ==> o.appended.value == Sentence(validate(ss, candidate).value.sentence, stamp, dev)
    ensures o.newSummary.Some? <==> o.appended.Some? && !updateFails
    ensures o.newSummary.Some? ==> o.newSummary.value == validate(ss, candidate).value.updatedSummary
    ensures o.clearInput <==> o.newSummary.Some?
    ensures o.error.None? <==> o.newSummary.Some?
    ensures var reply := validate(ss, candidate);
      o.error.Some? && (reply.None? || reply.value.isValid == Yes) ==> o.error == Some(FailureMessage)
    ensures var reply := validate(ss, candidate);
      reply.Some? && reply.value.isValid != Yes ==> o.error == Some(reply.value.message)
  {
    match validate(ss, candidate)
    case None => Outcome(Some(FailureMessage), false, None, None)
    case Some(reply) =>
      if reply.isValid != Yes then Outcome(Some(reply.message), false, None, None)
      else if addFails then Outcome(Some(FailureMessage), false, None, None)
      else
        var added := Sentence(reply.sentence, stamp, dev);
        if updateFails then Outcome(Some(FailureMessage), false, Some(added), None)
        else Outcome(None, true, Some(added), Some(reply.updatedSummary))
  }

  /**
   * A refused submission shows the check's message and writes nothing, and the
   * validator is never consulted: the outcome is the same whatever it would say.
   */
  lemma RefusedBeforeValidation(input: JsString, ss: seq<Sentence>, dev: JsString, now: int, stamp: int,
                                v1: (seq<Sentence>, JsString) -> Option<Reply>,
                                v2: (seq<Sentence>, JsString) -> Option<Reply>,
                                addFails: bool, updateFails: bool)
    requires CheckSubmission(input, ss, dev, now).Refused?
    ensures var o := Submit(input, ss, dev, now, stamp, v1, addFails, updateFails);
      o == Outcome(Some(CheckSubmission(input, ss, dev, now).message), false, None, None)
    ensures Submit(input, ss, dev, now, stamp, v1, addFails, updateFails)
         == Submit(input, ss, dev, now, stamp, v2, addFails, updateFails)
  {
  }

  /** A submission the checks admit goes on to validation with the trimmed input. */
  lemma AdmittedGoesOn(input: JsString, ss: seq<Sentence>, dev: JsString, now: int, stamp: int,
                       validate: (seq<Sentence>, JsString) -> Option<Reply>,
                       addFails: bool, updateFails: bool, candidate: JsString)
    requires CheckSubmission(input, ss, dev, now) == Admitted(candidate)
    ensures candidate == Trim(input)
    ensures Submit(input, ss, dev, now, stamp, validate, addFails, updateFails)
         == SubmitChecked(ss, candidate, dev, stamp, validate, addFails, updateFails)
  {
  }

  /**
   * After the checks pass: a reply whose `isValid` is not exactly "yes" shows
   * the reply's message verbatim, and a call that threw shows the generic
   * message, as does an `addDoc` that threw after a "yes"; none of them
   * writes anything.
   */
  lemma RejectionWritesNothing(input: JsString, ss: seq<Sentence>, dev: JsString, now: int, stamp: int,
                               validate: (seq<Sentence>, JsString) -> Option<Reply>,
                               addFails: bool, updateFails: bool)
    requires CheckSubmission(input, ss, dev, now).Admitted?
    ensures var reply := validate(ss, Trim(input));
      var o := Submit(input, ss, dev, now, stamp, validate, addFails, updateFails);
      (reply.None? ==> o == Outcome(Some(FailureMessage), false, None, None))
      && (reply.Some? && reply.value.isValid != Yes ==> o == Outcome(Some(reply.value.message), false, None, None))
      && (reply.Some? && reply.value.isValid == Yes && addFails ==> o == Outcome(Some(FailureMessage), false, None, None))
  {
  }

  /** "Yes" with a capital letter is a rejection like any other value but "yes". */
  lemma CapitalYesRejected(input: JsString, ss: seq<Sentence>, dev: JsString, now: int, stamp: int,
                           validate: (seq<Sentence>, JsString) -> Option<Reply>,
                           addFails: bool, updateFails: bool)
    requires CheckSubmission(input, ss, dev, now).Admitted?
    requires var reply := validate(ss, Trim(input));
      reply.Some? && reply.value.isValid == [0x59, 0x65, 0x73]
    ensures Submit(input, ss, dev, now, stamp, validate, addFails, updateFails)
         == Outcome(Some(validate(ss, Trim(input)).value.message), false, None, None)
  {
    var capital: JsString := [0x59, 0x65, 0x73];
    assert capital[0] != Yes[0];
  }

  /**
   * The two writes are not a transaction: when the summary update fails after
   * the sentence was added, the sentence stays and the generic message shows.
   */
  lemma PartialWriteKept(input: JsString, ss: seq<Sentence>, dev: JsString, now: int, stamp: int,
                         validate: (seq<Sentence>, JsString) -> Option<Reply>)
    requires CheckSubmission(input, ss, dev, now).Admitted?
    requires var reply := validate(ss, Trim(input));
      reply.Some? && reply.value.isValid == Yes
    ensures var o := Submit(input, ss, dev, now, stamp, validate, false, true);
      o.appended.Some? && o.newSummary.None? && o.error == Some(FailureMessage) && !o.clearInput
  {
  }

  /**
   * Once a sentence of the device is in the fetched `sentences`, any further
   * submission of that device within the hour after its time is refused with
   * the rate-limit message, however good the candidate is.
   */
  lemma SecondSubmissionRefused(input: JsString, ss: seq<Sentence>, x: Sentence, now: int)
    requires x in ss
    requires now - x.createdAt < HourMs
    requires MinLength <= |Trim(input)| <= MaxLength
    ensures CheckSubmission(input, ss, x.deviceIdentifier, now) == Refused(RateLimitMessage)
  {
    var i :| 0 <= i < |ss| && ss[i] == x;
    assert SubmittedWithinHour(ss, x.deviceIdentifier, now);
  }
}
