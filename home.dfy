/**
 * The page component and the document store behind it, as objects whose
 * fields change in place: the store holds the `dailyStory` collection and the
 * `summary/shortsummary` document; the component holds the state it renders
 * (the fetched sentences and summary, the input, the error, the loading flag)
 * and the device identifier.
 */
module Home {
  import opened Wrappers
  import opened JsText
  import opened Story
  import opened Validator
  import opened Admission

  /** The document store: the story collection and the summary document (`None`: absent). */
  class Store {
    var dailyStory: seq<Sentence>
    var summary: Option<JsString>

    constructor (dailyStory: seq<Sentence>, summary: Option<JsString>)
      ensures this.dailyStory == dailyStory && this.summary == summary
    {
      this.dailyStory := dailyStory;
      this.summary := summary;
    }

    /** `addDoc`: appends the sentence unless the write throws (`fails`). */
    method AddDoc(s: Sentence, fails: bool) returns (ok: bool)
      modifies this
      ensures ok == !fails
      ensures dailyStory == old(dailyStory) + (if ok then [s] else [])
      ensures summary == old(summary)
    {
      ok := !fails;
      if ok {
        dailyStory := dailyStory + [s];
      }
    }

    /**
     * `updateDoc` on the summary: overwrites its text, and throws when the
     * write fails or the document does not exist.
     */
    method UpdateSummary(text: JsString, fails: bool) returns (ok: bool)
      modifies this
      ensures ok == (!fails && old(summary).Some?)
      ensures summary == if ok then Some(text) else old(summary)
      ensures dailyStory == old(dailyStory)
    {
      ok := !fails && summary.Some?;
      if ok {
        summary := Some(text);
      }
    }
  }

  class Home {
    const store: Store
    var sentences: seq<Sentence>
    var newSentence: JsString
    var summary: Option<JsString>
    var error: Option<JsString>
    var deviceIdentifier: JsString
    var isLoading: bool

    /** The component's initial state. */
    constructor (store: Store)
      ensures this.store == store
      ensures sentences == [] && newSentence == [] && summary == None && error == None
      ensures deviceIdentifier == [] && !isLoading
    {
      this.store := store;
      sentences := [];
      newSentence := [];
      summary := None;
      error := None;
      deviceIdentifier := [];
      isLoading := false;
    }

    /** The fingerprint effect resolving with the visitor id. */
    method SetDeviceIdentifier(visitorId: JsString)
      modifies this`deviceIdentifier
      ensures deviceIdentifier == visitorId
    {
      deviceIdentifier := visitorId;
    }

    /** Typing in the input. */
    method HandleInputChange(value: JsString)
      modifies this`newSentence
      ensures newSentence == value
    {
      newSentence := value;
    }

    /**
     * `fetchSentences`: reads the story ordered by `createdAt`, oldest first;
     * a failed read (`fails`) is only logged.
     */
    method FetchSentences(fails: bool)
      modifies this`sentences
      ensures fails ==> sentences == old(sentences)
      ensures !fails ==> multiset(sentences) == multiset(store.dailyStory)
      ensures !fails ==> forall i, j :: 0 <= i < j < |sentences| ==> sentences[i].createdAt <= sentences[j].createdAt
    {
      if !fails {
        sentences := SortDescBy(store.dailyStory, CreatedAtNegated);
        assert SortedDescBy(sentences, CreatedAtNegated);
      }
    }

    /** `fetchSummary`: takes the summary text when the document exists and the read succeeds. */
    method FetchSummary(fails: bool)
      modifies this`summary
      ensures summary == if !fails && store.summary.Some? then store.summary else old(summary)
    {
      if !fails && store.summary.Some? {
        summary := store.summary;
      }
    }

    /**
     * `addSentence`, run to its end: `now` is the clock read by the rate
     * limit, `stamp` the one stored with an accepted sentence, `validate` the
     * server action `validate(sentences, trimmedSentence)`, and `addFails`/`updateFails`
     * whether the two store writes throw.  The component's fetched sentences
     * and summary are left alone (the refresh calls it starts are
     * `FetchSentences` and `FetchSummary`), and the store changes exactly as
     * `Submit` says.
     */
    method AddSentence(now: int, stamp: int,
                       validate: (seq<Sentence>, JsString) -> Option<Reply>,
                       addFails: bool, updateFails: bool)
      modifies this, store
      ensures var o := Submit(old(newSentence), old(sentences), old(deviceIdentifier), now, stamp, validate,
                              addFails, updateFails || old(store.summary).None?);
        && error == o.error
        && newSentence == (if o.clearInput then [] else old(newSentence))
        && store.dailyStory == old(store.dailyStory) + o.appended.ToSeq()
        && store.summary == (if o.newSummary.Some? then o.newSummary else old(store.summary))
      ensures !isLoading
      ensures sentences == old(sentences) && summary == old(summary)
      ensures deviceIdentifier == old(deviceIdentifier)
    {
      var input, ss, dev := newSentence, sentences, deviceIdentifier;
      isLoading := true;
      var check := CheckInput(input, ss, dev, now);
      if check.Refused? {
        ShowRefusal(input, ss, dev, now, stamp, validate, addFails, updateFails, check.message);
      } else {
        SubmitCandidate(input, ss, check.candidate, dev, now, stamp, validate, addFails, updateFails);
      }
      isLoading := false;
    }

    /**
     * The checks `addSentence` makes before it calls the validator, in their
     * order, each returning early with its message: the trimmed input is
     * empty, too short, too long, or the device's newest sentence is less
     * than an hour older than `now`.
     */
    static method CheckInput(input: JsString, ss: seq<Sentence>, dev: JsString, now: int) returns (c: Check)
      ensures c == CheckSubmission(input, ss, dev, now)
    {
      var trimmed := Trim(input);
      if trimmed == [] {
        return Refused(EmptyMessage);
      }
      if |trimmed| < MinLength {
        return Refused(TooShortMessage);
      }
      if |trimmed| > MaxLength {
        return Refused(TooLongMessage);
      }
      var sorted := NewestFirst(ss);
      var lastSubmission := FindByDevice(sorted, dev);
      if lastSubmission.Some? && now - lastSubmission.value.createdAt < HourMs {
        return Refused(RateLimitMessage);
      }
      return Admitted(trimmed);
    }

    /** An early return of `addSentence`: the check's message is shown and nothing else changes. */
    method ShowRefusal(input: JsString, ss: seq<Sentence>, dev: JsString, now: int, stamp: int,
                       validate: (seq<Sentence>, JsString) -> Option<Reply>,
                       addFails: bool, updateFails: bool, message: JsString)
      requires CheckSubmission(input, ss, dev, now) == Refused(message)
      modifies this`error
      ensures var o := Submit(input, ss, dev, now, stamp, validate,
                              addFails, updateFails || old(store.summary).None?);
        && error == o.error
        && newSentence == (if o.clearInput then [] else old(newSentence))
        && store.dailyStory == old(store.dailyStory) + o.appended.ToSeq()
        && store.summary == (if o.newSummary.Some? then o.newSummary else old(store.summary))
    {
      RefusedBeforeValidation(input, ss, dev, now, stamp, validate, validate, addFails, updateFails || store.summary.None?);
      error := Some(message);
    }

    /**
     * The `try` block of `addSentence`, entered with the trimmed sentence once
     * the checks passed: validate it, add it with the stamp and the device,
     * overwrite the summary, and clear the input; the first step that fails
     * decides the error shown.
     */
    method SubmitCandidate(input: JsString, ss: seq<Sentence>, candidate: JsString, dev: JsString, now: int, stamp: int,
                           validate: (seq<Sentence>, JsString) -> Option<Reply>,
                           addFails: bool, updateFails: bool)
      requires CheckSubmission(input, ss, dev, now) == Admitted(candidate)
      modifies this`error, this`newSentence, store
      ensures var o := Submit(input, ss, dev, now, stamp, validate,
                              addFails, updateFails || old(store.summary).None?);
        && error == o.error
        && newSentence == (if o.clearInput then [] else old(newSentence))
        && store.dailyStory == old(store.dailyStory) + o.appended.ToSeq()
        && store.summary == (if o.newSummary.Some? then o.newSummary else old(store.summary))
    {
      AdmittedGoesOn(input, ss, dev, now, stamp, validate, addFails, updateFails || store.summary.None?, candidate);
      var parsed := validate(ss, candidate);
      if parsed.None? {
        error := Some(FailureMessage);
      } else if parsed.value.isValid == Yes {
        var s := Sentence(parsed.value.sentence, stamp, dev);
        var added := store.AddDoc(s, addFails);
        if !added {
          error := Some(FailureMessage);
        } else {
          var updated := store.UpdateSummary(parsed.value.updatedSummary, updateFails);
          if !updated {
            error := Some(FailureMessage);
          } else {
            newSentence := [];
            error := None;
          }
        }
      } else {
        error := Some(parsed.value.message);
      }
    }
  }
}
