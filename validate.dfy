/**
 * The deterministic parts of the content validator: the story context handed
 * to the language model, the prompt built around it, and the clean-up of the
 * model's reply before it is parsed as JSON.  The model call itself and
 * `JSON.parse` are parameters of `Validate`.
 */
module Validator {
  import opened Wrappers
  import opened JsText
  import opened Story

  const Space: CodeUnit := 0x20

  /** The story so far: the sentence texts in list order, separated by one space. */
  function StoryText(ss: seq<Sentence>): (r: JsString)
    ensures ss != [] ==> |r| == TotalLength(Texts(ss)) + |ss| - 1
  {
    Join(Texts(ss), Space)
  }

  /**
   * The story context has exactly the shape `join(" ")` promises: empty for no
   * sentences, the text itself for one, and otherwise beginning with the first
   * text, ending with the last, with one space between neighbours.
   */
  lemma StoryTextShape(ss: seq<Sentence>)
    ensures ss == [] ==> StoryText(ss) == []
    ensures |ss| == 1 ==> StoryText(ss) == ss[0].text
    ensures |ss| >= 2 ==> StoryText(ss) == ss[0].text + [Space] + StoryText(ss[1..])
    ensures ss != [] ==> |StoryText(ss)| == TotalLength(Texts(ss)) + |ss| - 1
    ensures ss != [] ==> StartsWith(StoryText(ss), ss[0].text)
    ensures ss != [] ==> var r, last := StoryText(ss), ss[|ss| - 1].text;
      |last| <= |r| && r[|r| - |last|..] == last
  {
    JoinShape(Texts(ss), Space);
    if |ss| >= 2 {
      assert Texts(ss)[1..] == Texts(ss[1..]);
    }
  }

  /** Appending a sentence to the story appends one space and its text to the context. */
  lemma StoryTextAppend(ss: seq<Sentence>, s: Sentence)
    ensures StoryText(ss + [s]) == if ss == [] then s.text else StoryText(ss) + [Space] + s.text
  {
    assert Texts(ss + [s]) == Texts(ss) + [s.text];
    if ss != [] {
      JoinAppend(Texts(ss), s.text, Space);
    }
  }

  /** When no text holds a space, splitting the context at spaces gives the texts back. */
  lemma StoryTextSplits(ss: seq<Sentence>)
    requires ss != []
    requires forall i :: 0 <= i < |ss| ==> Space !in ss[i].text
    ensures Split(StoryText(ss), Space) == Texts(ss)
  {
    SplitJoin(Texts(ss), Space);
  }

  /**
   * Every sentence's text sits in the story context behind the texts before
   * it and one space after each of them, whatever the texts contain.
   */
  lemma StoryTextLocates(ss: seq<Sentence>, i: nat)
    requires i < |ss|
    ensures OccursAt(ss[i].text, StoryText(ss), TotalLength(Texts(ss[..i])) + i)
  {
    JoinLocates(Texts(ss), Space, i);
    assert Texts(ss)[..i] == Texts(ss[..i]);
  }

  /**
   * A prompt template cut at its three substitutions: the text before the
   * story, between the story and the candidate, between the candidate and its
   * second occurrence, and after that.
   */
  datatype Template = Template(opening: JsString, afterStory: JsString,
                               afterCandidate: JsString, closing: JsString)

  /** The template's text with the story and, twice, the candidate substituted. */
  function Fill(t: Template, story: JsString, candidate: JsString): (p: JsString)
    ensures |p| == |t.opening| + |story| + |t.afterStory| + |candidate|
                   + |t.afterCandidate| + |candidate| + |t.closing|
  {
    t.opening + (story + (t.afterStory + (candidate + (t.afterCandidate + (candidate + t.closing)))))
  }

  /** The validator's instructions, with the indentation of the template literal kept. */
  const Instructions: Template := Template(
    Units(
        "\n" +
        "      You are a validator " +
        "for a collaborative chain " +
        "story. Your task is to determine " +
        "if a new sentence fits seamlessly " +
        "into the ongoing story. " +
        "The story so far is: \""),
    Units(
        "\". The new sentence to evaluate " +
        "is: \""),
    Units(
        "\". \n" +
        "      Please assess the " +
        "new sentence for:\n" +
        "      1. Coherence with " +
        "the existing story.\n" +
        "      2. Logical continuity " +
        "and relevance.\n" +
        "      3. Smooth flow from " +
        "the last sentence.\n" +
        "      4. Make sure the sentence " +
        "is always in English if " +
        "not send appropriate message.\n" +
        "      5. Make sure the sentence " +
        "doesn't repeat.\n" +
        "      \n" +
        "      IF the sentence can " +
        "be added to the story, return " +
        "a JSON response: {\"isValid\":\"yes\", " +
        "\"sentence\":\"correct "),
    Units(
        " for grammatical errors " +
        "do not add extra stuff just " +
        "correct the grammar\", \"updatedSummary\":\"short " +
        "summary of the whole story " +
        "including the current sentence. " +
        "Make sure it is short and " +
        "concise\"}.\n" +
        "      IF the sentence cannot " +
        "be added, return a JSON " +
        "response: {\"isValid\":\"no\", " +
        "\"message\":\"short msg in " +
        "10 words\"}.\n" +
        "    "))

  /** The instruction sent to the model, embedding the story once and the candidate twice. */
  function Prompt(story: JsString, candidate: JsString): (p: JsString)
    ensures StoryIn(Instructions, p, |candidate|) == story
    ensures CandidateIn(Instructions, p, |story|) == candidate
  {
    FillStoryRoundTrip(Instructions, story, candidate);
    FillCandidateRoundTrip(Instructions, story, candidate);
    Fill(Instructions, story, candidate)
  }

  /**
   * A filled template contains the story, and the candidate at two different
   * places: where the model is asked to judge it and where it is asked to
   * correct it.
   */
  lemma FillEmbeds(t: Template, story: JsString, candidate: JsString)
    ensures OccursAt(story, Fill(t, story, candidate), |t.opening|)
    ensures var j := |t.opening| + |story| + |t.afterStory|;
      OccursAt(candidate, Fill(t, story, candidate), j)
      && OccursAt(candidate, Fill(t, story, candidate), j + |candidate| + |t.afterCandidate|)
  {
    var r3 := t.afterCandidate + (candidate + t.closing);
    var r1 := t.afterStory + (candidate + r3);
    OccursInMiddle(t.opening, story, r1);
    FirstCandidate(t, story, candidate, r1, r3);
    SecondCandidate(t, story, candidate, r1, r3);
  }

  lemma FirstCandidate(t: Template, story: JsString, candidate: JsString, r1: JsString, r3: JsString)
    requires r3 == t.afterCandidate + (candidate + t.closing)
    requires r1 == t.afterStory + (candidate + r3)
    ensures OccursAt(candidate, Fill(t, story, candidate), |t.opening| + |story| + |t.afterStory|)
  {
    OccursInMiddle(t.afterStory, candidate, r3);
    OccursAfterPrefix(candidate, story, r1, |t.afterStory|);
    OccursAfterPrefix(candidate, t.opening, story + r1, |story| + |t.afterStory|);
  }

  lemma SecondCandidate(t: Template, story: JsString, candidate: JsString, r1: JsString, r3: JsString)
    requires r3 == t.afterCandidate + (candidate + t.closing)
    requires r1 == t.afterStory + (candidate + r3)
    ensures OccursAt(candidate, Fill(t, story, candidate),
                     |t.opening| + |story| + |t.afterStory| + |candidate| + |t.afterCandidate|)
  {
    OccursInMiddle(t.afterCandidate, candidate, t.closing);
    OccursAfterPrefix(candidate, candidate, r3, |t.afterCandidate|);
    OccursAfterPrefix(candidate, t.afterStory, candidate + r3, |candidate| + |t.afterCandidate|);
    OccursAfterPrefix(candidate, story, r1, |t.afterStory| + |candidate| + |t.afterCandidate|);
    OccursAfterPrefix(candidate, t.opening, story + r1, |story| + |t.afterStory| + |candidate| + |t.afterCandidate|);
  }

  /**
   * Reads the story back out of a filled template, given the length of the
   * candidate it was filled with.
   */
  function StoryIn(t: Template, p: JsString, candidateLength: nat): (story: JsString)
  {
    var tail := |t.afterStory| + candidateLength + |t.afterCandidate| + candidateLength + |t.closing|;
    if |t.opening| + tail <= |p| then p[|t.opening|..|p| - tail] else []
  }

  /**
   * Reads the candidate back out of a filled template, given the length of
   * the story it was filled with.
   */
  function CandidateIn(t: Template, p: JsString, storyLength: nat): (candidate: JsString)
  {
    var start := |t.opening| + storyLength + |t.afterStory|;
    var fixed := start + |t.afterCandidate| + |t.closing|;
    if fixed <= |p| && (|p| - fixed) % 2 == 0 then p[start..start + (|p| - fixed) / 2] else []
  }

  /** Nothing is lost in the prompt: the story can be read back out of it. */
  lemma FillStoryRoundTrip(t: Template, story: JsString, candidate: JsString)
    ensures StoryIn(t, Fill(t, story, candidate), |candidate|) == story
  {
    var p := Fill(t, story, candidate);
    FillEmbeds(t, story, candidate);
  }

  /** Nothing is lost in the prompt: the candidate can be read back out of it. */
  lemma FillCandidateRoundTrip(t: Template, story: JsString, candidate: JsString)
    ensures CandidateIn(t, Fill(t, story, candidate), |story|) == candidate
  {
    var p := Fill(t, story, candidate);
    var j := |t.opening| + |story| + |t.afterStory|;
    var fixed := j + |t.afterCandidate| + |t.closing|;
    assert |p| - fixed == 2 * |candidate|;
    assert (2 * |candidate|) % 2 == 0 && (2 * |candidate|) / 2 == |candidate|;
    FillEmbeds(t, story, candidate);
  }

  // Code units of the fences the model may wrap its JSON in.
  const Backtick: CodeUnit := 0x60
  const Fence: JsString := [Backtick, Backtick, Backtick]
  /** "json" */
  const JsonTag: JsString := [0x6A, 0x73, 0x6F, 0x6E]
  /** "```json" */
  const OpeningFence: JsString := Fence + JsonTag

  /**
   * Where the match of the first alternative `^```json\s*` ends: after the
   * opening fence and the whitespace run behind it, when the string begins
   * with the opening fence; 0 (no match) otherwise.
   */
  function OpeningFenceEnd(s: JsString): (e: nat)
    ensures e <= |s|
    ensures e > 0 <==> StartsWith(s, OpeningFence)
    ensures e > 0 ==> |OpeningFence| <= e
                      && (forall j :: |OpeningFence| <= j < e ==> IsWhitespace(s[j]))
                      && (e < |s| ==> !IsWhitespace(s[e]))
  {
    if StartsWith(s, OpeningFence) then SkipWhitespace(s, |OpeningFence|) else 0
  }

  /** Three backticks begin at `p`. */
  predicate FenceAt(s: JsString, p: nat) {
    p + 3 <= |s| && s[p] == Backtick && s[p + 1] == Backtick && s[p + 2] == Backtick
  }

  /** The second alternative ````\s*$` matches at `p`: a fence with only whitespace after it. */
  predicate ClosingFenceAt(s: JsString, p: nat) {
    FenceAt(s, p) && forall j :: p + 3 <= j < |s| ==> IsWhitespace(s[j])
  }

  /**
   * The scan of the global `replace` from `from` on: the first position where
   * the closing alternative matches, or `|s|` when it matches nowhere.
   */
  function FindClosingFence(s: JsString, from: nat): (c: nat)
    requires from <= |s|
    ensures from <= c <= |s|
    ensures c < |s| ==> ClosingFenceAt(s, c)
    ensures forall q :: from <= q < c ==> !ClosingFenceAt(s, q)
    decreases |s| - from
  {
    if from == |s| then |s|
    else if ClosingFenceAt(s, from) then from
    else FindClosingFence(s, from + 1)
  }

  /**
   * `s.replace(/^```json\s*|```\s*$/g, '')`: the opening match, if any, is
   * taken first; the scan then resumes behind it and removes the closing
   * match, if any; after that the end of the string is reached.
   */
  function RemoveFences(s: JsString): (r: JsString)
    ensures var e := OpeningFenceEnd(s);
      e + |r| <= |s| && r == s[e..e + |r|]
      && (e + |r| < |s| ==> ClosingFenceAt(s, e + |r|))
      && forall q :: e <= q < e + |r| ==> !ClosingFenceAt(s, q)
  {
    var e := OpeningFenceEnd(s);
    s[e..FindClosingFence(s, e)]
  }

  /** The reply text as handed to `JSON.parse`: fences removed, then trimmed. */
  function StripFences(s: JsString): (r: JsString)
    ensures |r| <= |s|
  {
    Trim(RemoveFences(s))
  }

  /** The closing alternative can match at one position at most. */
  lemma ClosingFenceUnique(s: JsString, p: nat, q: nat)
    requires ClosingFenceAt(s, p) && ClosingFenceAt(s, q)
    ensures p == q
  {
    assert !IsWhitespace(Backtick);
    assert s[q + 2] == Backtick && s[p + 2] == Backtick;
  }

  /** The opening fence is recognised only as a lower-case "```json" at the very start. */
  lemma OpeningFenceOnlyAtStart(s: JsString)
    requires !StartsWith(s, OpeningFence)
    ensures RemoveFences(s) == s[..FindClosingFence(s, 0)]
  {
  }

  /** A bare "```" (one not followed by "json") at the start is not an opening fence. */
  lemma BareFenceNotOpening(rest: JsString)
    requires !StartsWith(rest, JsonTag)
    ensures OpeningFenceEnd(Fence + rest) == 0
  {
    var s := Fence + rest;
    if |rest| >= 4 {
      assert s[..7] == Fence + rest[..4];
      assert Fence + rest[..4] != OpeningFence by {
        assert (Fence + rest[..4])[3..] == rest[..4];
        assert OpeningFence[3..] == JsonTag;
      }
    }
  }

  /** "```JSON", with an upper-case tag, is not an opening fence. */
  lemma UppercaseTagNotOpening(rest: JsString)
    ensures OpeningFenceEnd(Fence + [0x4A, 0x53, 0x4F, 0x4E] + rest) == 0
  {
    var upper: JsString := [0x4A, 0x53, 0x4F, 0x4E];
    assert Fence + upper + rest == Fence + (upper + rest);
    assert (upper + rest)[0] == 0x4A != JsonTag[0];
    BareFenceNotOpening(upper + rest);
  }

  /**
   * A fence followed only by whitespace, behind the opening match, is cut off
   * together with everything after it, and nothing else is cut at the end.
   */
  lemma TrailingFenceRemoved(s: JsString, p: nat)
    requires ClosingFenceAt(s, p)
    requires OpeningFenceEnd(s) <= p
    ensures RemoveFences(s) == s[OpeningFenceEnd(s)..p]
  {
    var c := FindClosingFence(s, OpeningFenceEnd(s));
    if c < p {
      ClosingFenceUnique(s, c, p);
    }
    assert c == p;
  }

  /**
   * A code unit behind the opening match that is neither whitespace nor a
   * backtick cannot be part of a closing match, so it survives, and so does
   * everything between the opening match and it.
   */
  lemma ContentKept(s: JsString, k: nat)
    requires OpeningFenceEnd(s) <= k < |s|
    requires !IsWhitespace(s[k]) && s[k] != Backtick
    ensures var e := OpeningFenceEnd(s); var r := RemoveFences(s);
      k - e < |r| && r[..k + 1 - e] == s[e..k + 1]
  {
    var e := OpeningFenceEnd(s);
    var c := FindClosingFence(s, e);
    var r := RemoveFences(s);
    if c < |s| {
      ClosingFenceCovers(s, c, k);
    }
    assert k < c;
    assert forall j :: 0 <= j < k + 1 - e ==> r[j] == s[e + j];
  }

  /** Behind the start of a closing match there are only backticks and whitespace. */
  lemma ClosingFenceCovers(s: JsString, c: nat, k: nat)
    requires ClosingFenceAt(s, c)
    requires k < |s|
    ensures c <= k ==> s[k] == Backtick || IsWhitespace(s[k])
  {
  }

  /** A fence followed by whitespace, at the end of a string, is a closing match. */
  lemma ClosingFenceAtEnd(t: JsString, w: JsString)
    requires AllWhitespace(w)
    ensures ClosingFenceAt(t + Fence + w, |t|)
  {
    var s := t + Fence + w;
    var p := |t|;
    assert s[p] == Backtick && s[p + 1] == Backtick && s[p + 2] == Backtick;
    assert forall j :: p + 3 <= j < |s| ==> s[j] == w[j - p - 3];
  }

  /**
   * A fence inside the reply (one followed, somewhere later, by a code unit
   * that is neither whitespace nor a backtick) is preserved.
   */
  lemma InteriorFenceKept(s: JsString, q: nat, k: nat)
    requires OpeningFenceEnd(s) <= q
    requires q + 3 <= k < |s|
    requires FenceAt(s, q)
    requires !IsWhitespace(s[k]) && s[k] != Backtick
    ensures FenceAt(RemoveFences(s), q - OpeningFenceEnd(s))
  {
    ContentKept(s, k);
    var e := OpeningFenceEnd(s);
    var r := RemoveFences(s);
    assert r[q - e] == r[..k + 1 - e][q - e] == s[q];
    assert r[q + 1 - e] == r[..k + 1 - e][q + 1 - e] == s[q + 1];
    assert r[q + 2 - e] == r[..k + 1 - e][q + 2 - e] == s[q + 2];
  }

  /** A reply without an opening fence and without a closing match is changed only by `trim`. */
  lemma UnfencedOnlyTrimmed(s: JsString)
    requires !StartsWith(s, OpeningFence)
    requires forall p :: 0 <= p < |s| ==> !ClosingFenceAt(s, p)
    ensures RemoveFences(s) == s
    ensures StripFences(s) == Trim(s)
  {
    assert FindClosingFence(s, 0) == |s|;
  }

  /**
   * The usual wrapped reply: "```json", whitespace, the JSON text, "```",
   * whitespace.  When the JSON text holds no backtick, what reaches
   * `JSON.parse` is exactly the trimmed JSON text.
   */
  lemma FencedReplyUnwrapped(w1: JsString, body: JsString, w2: JsString)
    requires AllWhitespace(w1) && AllWhitespace(w2)
    requires Backtick !in body
    ensures StripFences(OpeningFence + w1 + body + Fence + w2) == Trim(body)
  {
    var s := OpeningFence + w1 + body + Fence + w2;
    var o := |OpeningFence|;
    var p := o + |w1| + |body|;
    assert s[..o] == OpeningFence;
    assert s[o..p] == w1 + body;
    assert s[p..p + 3] == Fence;
    ClosingFenceAtEnd(OpeningFence + w1 + body, w2);
    var e := OpeningFenceEnd(s);
    assert s[p] == Backtick;
    assert e <= p;
    TrailingFenceRemoved(s, p);
    assert s[o..p] == s[o..e] + s[e..p];
    assert AllWhitespace(s[o..e]);
    TrimIgnoresLeadingWhitespace(s[o..e], s[e..p]);
    TrimIgnoresLeadingWhitespace(w1, body);
  }

  /** The reply object the prompt asks for, as `JSON.parse` returns it. */
  datatype Reply = Reply(isValid: JsString, sentence: JsString, updatedSummary: JsString, message: JsString)

  /**
   * `validate(sentences, trimmedSentence)`. `generate` is the model call
   * (`None`: it threw) and `parse` is `JSON.parse` (`None`: it threw).
   */
  function Validate(ss: seq<Sentence>, candidate: JsString,
                    generate: JsString -> Option<JsString>,
                    parse: JsString -> Option<Reply>): (r: Option<Reply>)
    ensures generate(Prompt(StoryText(ss), candidate)).None? ==> r.None?
  {
    var reply := generate(Prompt(StoryText(ss), candidate));
    if reply.None? then None else parse(StripFences(reply.value))
  }

  /** A reply wrapped in the usual fences reaches `JSON.parse` as its trimmed JSON text. */
  lemma ValidateUnwrapsFencedReply(ss: seq<Sentence>, candidate: JsString,
                                   generate: JsString -> Option<JsString>,
                                   parse: JsString -> Option<Reply>,
                                   w1: JsString, body: JsString, w2: JsString)
    requires AllWhitespace(w1) && AllWhitespace(w2)
    requires Backtick !in body
    requires generate(Prompt(StoryText(ss), candidate)) == Some(OpeningFence + w1 + body + Fence + w2)
    ensures Validate(ss, candidate, generate, parse) == parse(Trim(body))
  {
    FencedReplyUnwrapped(w1, body, w2);
  }

  /**
   * A reply with no fence markers at all reaches `JSON.parse` only trimmed:
   * the fence removal changes nothing in it.
   */
  lemma ValidateTrimsUnfencedReply(ss: seq<Sentence>, candidate: JsString,
                                   generate: JsString -> Option<JsString>,
                                   parse: JsString -> Option<Reply>,
                                   reply: JsString)
    requires !StartsWith(reply, OpeningFence)
    requires forall p :: 0 <= p < |reply| ==> !ClosingFenceAt(reply, p)
    requires generate(Prompt(StoryText(ss), candidate)) == Some(reply)
    ensures Validate(ss, candidate, generate, parse) == parse(Trim(reply))
  {
    UnfencedOnlyTrimmed(reply);
  }
}
