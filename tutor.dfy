/**
 * The math tutor's request path: where the question comes from, the checks
 * made before the language model is asked, the model call itself (as an
 * opaque provider), the split of the reply into an answer and clues, and the
 * history entry one submission produces.
 */
module Tutor {
  import opened Text

  const KeyPrefix := "sk-"
  const NoTextFound := "No text found in the image."
  const NoKeyError := "Error: No API key provided."
  const ErrorPrefix := "Error: "
  const CluesWord := "Clues"
  const CluesDelimiter := "Clues:"
  const NoCluesGiven := "Clues not provided."

  // ---------------------------------------------------------------------
  // Where the question comes from

  /** The form's question input: typed text, or the OCR text of an uploaded image. */
  datatype QuestionSource = Typed(text: string) | Uploaded(ocrText: string)

  /** The question the form submits; an image whose OCR text is empty gets a fixed sentence. */
  function QuestionOf(source: QuestionSource): (q: string)
    ensures source.Typed? ==> q == source.text
    ensures source.Uploaded? ==> q != []
    ensures source.Uploaded? && source.ocrText != [] ==> q == source.ocrText
    ensures source.Uploaded? && source.ocrText == [] ==> q == NoTextFound
  {
    match source
    case Typed(text) => text
    case Uploaded(ocrText) => if ocrText != [] then ocrText else NoTextFound
  }

  // ---------------------------------------------------------------------
  // Validation before the model is asked

  datatype Verdict = Accepted | KeyRejected | QuestionRejected

  /** The key is checked first: it must start with "sk-"; then the question must not strip to empty. */
  function Validate(apiKey: string, question: string): (v: Verdict)
    ensures v == KeyRejected <==> !StartsWith(apiKey, KeyPrefix)
    ensures v == QuestionRejected <==> StartsWith(apiKey, KeyPrefix) && AllSpace(question)
    ensures v == Accepted <==> StartsWith(apiKey, KeyPrefix) && !AllSpace(question)
    ensures v == Accepted ==> apiKey != [] && question != []
  {
    if !StartsWith(apiKey, KeyPrefix) then KeyRejected
    else if Strip(question) == [] then QuestionRejected
    else Accepted
  }

  // ---------------------------------------------------------------------
  // The model call

  /** What the chat provider does with one prompt: return text, or raise a fault with a message. */
  datatype ProviderOutcome = Reply(content: string) | Fault(message: string)

  /**
   * The response for a question: a fixed error text when no key is given,
   * otherwise the provider's text, or "Error: " and the fault's message.
   * The provider stands for the prompt template and the chat model.
   */
  function GenerateResponse(question: string, apiKey: string,
                            provider: (string, string) -> ProviderOutcome): (r: string)
    ensures apiKey == [] ==> r == NoKeyError
    ensures apiKey != [] && provider(question, apiKey).Reply? ==> r == provider(question, apiKey).content
    ensures apiKey != [] && provider(question, apiKey).Fault? ==>
              StartsWith(r, ErrorPrefix) && r[|ErrorPrefix|..] == provider(question, apiKey).message
  {
    if apiKey == [] then NoKeyError
    else match provider(question, apiKey)
      case Reply(content) => content
      case Fault(message) => ErrorPrefix + message
  }

  // ---------------------------------------------------------------------
  // Splitting the reply

  datatype ParseResult = Parsed(answer: string, clues: string) | UnexpectedFormat(raw: string)

  /**
   * The reply is rejected unless "Clues" occurs in it. When "Clues:" occurs,
   * the answer is the stripped text before its first occurrence and the clues
   * the stripped text between the first and the second occurrence; when only
   * "Clues" occurs, the whole stripped reply is the answer and the clues are a
   * fixed sentence.
   */
  function ParseResponse(response: string): (p: ParseResult)
    ensures p.UnexpectedFormat? <==> !Contains(response, CluesWord)
    ensures p.UnexpectedFormat? ==> p.raw == response
    ensures Contains(response, CluesWord) && !Contains(response, CluesDelimiter) ==>
              p == Parsed(Strip(response), NoCluesGiven)
  {
    if !Contains(response, CluesWord) then UnexpectedFormat(response)
    else
      var clues := if Contains(response, CluesDelimiter) then Strip(Split(response, CluesDelimiter)[1])
                   else NoCluesGiven;
      var answer := if Contains(response, CluesDelimiter) then Strip(Split(response, CluesDelimiter)[0])
                    else Strip(response);
      Parsed(answer, clues)
  }

  /** Wherever the delimiter "Clues:" occurs, the word "Clues" occurs too. */
  lemma DelimiterHoldsWord(s: string, i: nat)
    requires IsAt(s, CluesDelimiter, i)
    ensures IsAt(s, CluesWord, i)
  {
    assert s[i..i + 5] == s[i..i + 6][..5];
  }

  /** The fixed clues sentence does not contain the delimiter. */
  lemma NoCluesGivenHasNoDelimiter()
    ensures !Contains(NoCluesGiven, CluesDelimiter)
  {
    assert ':' !in NoCluesGiven;
    AbsentCharNotContains(NoCluesGiven, CluesDelimiter, 5);
  }

  /**
   * When "Clues:" first occurs at `i`, the reply parses into the stripped
   * text before `i` and the stripped text from the end of that occurrence to
   * the next one (or the end).
   */
  lemma ParseWithDelimiter(response: string, i: nat)
    requires Find(response, CluesDelimiter, 0) == Some(i)
    ensures i + |CluesDelimiter| <= |response|
    ensures ParseResponse(response) ==
              Parsed(Strip(response[..i]),
                     Strip(response[i + |CluesDelimiter|..PieceEnd(response, CluesDelimiter, i + |CluesDelimiter|)]))
  {
    var d := CluesDelimiter;
    DelimiterHoldsWord(response, i);
    assert Contains(response, CluesWord);
    assert Contains(response, d);
    SplitSecond(response, d, i);
    var parts := Split(response, d);
    assert parts[0] == response[..i];
    assert ParseResponse(response) == Parsed(Strip(parts[0]), Strip(parts[1]));
  }

  /** When "Clues:" occurs, the answer is the stripped text before its first occurrence. */
  lemma {:induction false} AnswerBeforeFirstDelimiter(response: string, i: nat)
    requires Find(response, CluesDelimiter, 0) == Some(i)
    ensures ParseResponse(response).Parsed?
    ensures ParseResponse(response).answer == Strip(response[..i])
    ensures !Contains(ParseResponse(response).answer, CluesDelimiter)
  {
    ParseWithDelimiter(response, i);
    PieceHasNoSeparator(response, CluesDelimiter, 0);
    assert response[0..i] == response[..i];
    StripNotContains(response[..i], CluesDelimiter);
  }

  /**
   * When "Clues:" occurs, the clues are the stripped text between its first
   * and its second occurrence (or the end), so they never contain it.
   */
  lemma {:induction false} CluesBetweenDelimiters(response: string, i: nat)
    requires Find(response, CluesDelimiter, 0) == Some(i)
    ensures i + |CluesDelimiter| <= |response|
    ensures ParseResponse(response).Parsed?
    ensures ParseResponse(response).clues ==
              Strip(response[i + |CluesDelimiter|..PieceEnd(response, CluesDelimiter, i + |CluesDelimiter|)])
    ensures !Contains(ParseResponse(response).clues, CluesDelimiter)
  {
    var m := i + |CluesDelimiter|;
    ParseWithDelimiter(response, i);
    PieceHasNoSeparator(response, CluesDelimiter, m);
    StripNotContains(response[m..PieceEnd(response, CluesDelimiter, m)], CluesDelimiter);
  }

  /**
   * The clues equal the stripped remainder after the first "Clues:" exactly
   * when "Clues:" does not occur a second time.
   */
  lemma {:induction false} CluesAreRemainderIffNoSecond(response: string, i: nat)
    requires Find(response, CluesDelimiter, 0) == Some(i)
    ensures i + |CluesDelimiter| <= |response|
    ensures ParseResponse(response).Parsed?
    ensures ParseResponse(response).clues == Strip(response[i + |CluesDelimiter|..]) <==>
              Find(response, CluesDelimiter, i + |CluesDelimiter|).None?
  {
    var m := i + |CluesDelimiter|;
    CluesBetweenDelimiters(response, i);
    if Find(response, CluesDelimiter, m).Some? {
      StripSuffixKeepsOccurrence(response, CluesDelimiter, m);
    } else {
      assert response[m..|response|] == response[m..];
    }
  }

  /**
   * A reply built from an answer and clues that do not themselves contain
   * "Clues:" parses back into the stripped answer and the stripped clues.
   */
  lemma {:induction false} ParseRoundTrip(a: string, c: string)
    requires !Contains(a, CluesDelimiter) && !Contains(c, CluesDelimiter)
    ensures ParseResponse(a + CluesDelimiter + c) == Parsed(Strip(a), Strip(c))
  {
    var s := a + CluesDelimiter + c;
    var m := |a| + |CluesDelimiter|;
    FirstDelimiterAfterPrefix(a, c);
    assert s[m..] == c;
    FindNoneInSuffix(s, CluesDelimiter, m);
    assert PieceEnd(s, CluesDelimiter, m) == |s|;
    ParseWithDelimiter(s, |a|);
    assert s[..|a|] == a;
    assert s[m..|s|] == c;
  }

  /**
   * In `a + "Clues:" + c` with `a` free of "Clues:", the first "Clues:" is the
   * inserted one: no earlier occurrence can overlap it, since 'C' appears in
   * "Clues:" only at its start.
   */
  lemma FirstDelimiterAfterPrefix(a: string, c: string)
    requires !Contains(a, CluesDelimiter)
    ensures Find(a + CluesDelimiter + c, CluesDelimiter, 0) == Some(|a|)
  {
    var s := a + CluesDelimiter + c;
    var d := CluesDelimiter;
    assert s[|a|..|a| + |d|] == d;
    assert IsAt(s, d, |a|);
    forall k: nat | k < |a| ensures !IsAt(s, d, k) {
      if k + |d| <= |a| {
        assert s[k..k + |d|] == a[k..k + |d|];
        assert !IsAt(a, d, k);
      } else {
        assert s[|a|] == 'C';
        assert s[k..k + |d|][|a| - k] == s[|a|];
      }
    }
  }

  /** Whichever part of the reply is kept, it never contains "Clues:". */
  lemma ParsedPartsHaveNoDelimiter(response: string)
    requires ParseResponse(response).Parsed?
    ensures !Contains(ParseResponse(response).answer, CluesDelimiter)
    ensures !Contains(ParseResponse(response).clues, CluesDelimiter)
  {
    var first := Find(response, CluesDelimiter, 0);
    if first.Some? {
      AnswerBeforeFirstDelimiter(response, first.value);
      CluesBetweenDelimiters(response, first.value);
    } else {
      StripNotContains(response, CluesDelimiter);
      NoCluesGivenHasNoDelimiter();
    }
  }

  // ---------------------------------------------------------------------
  // One submission of the form

  /** The radio choice on the form. */
  datatype Action = GiveMeClues | ShowMeTheAnswer

  /** The `Type` of a history entry. */
  datatype EntryType = Clues | Answer

  /** One record of the search history. */
  datatype Entry = Entry(question: string, response: string, kind: EntryType)

  /** What a submission shows: one of three messages, or a success whose entry is recorded. */
  datatype Outcome =
    | InvalidKeyWarning
    | EmptyQuestionWarning
    | FormatError(response: string)
    | Recorded(entry: Entry)

  /** The result of pressing Submit with the given key, question and action. */
  function Submission(apiKey: string, question: string, action: Action,
                      provider: (string, string) -> ProviderOutcome): (o: Outcome)
    ensures o == InvalidKeyWarning <==> !StartsWith(apiKey, KeyPrefix)
    ensures o == EmptyQuestionWarning <==> StartsWith(apiKey, KeyPrefix) && AllSpace(question)
  {
    match Validate(apiKey, question)
    case KeyRejected => InvalidKeyWarning
    case QuestionRejected => EmptyQuestionWarning
    case Accepted =>
      var response := GenerateResponse(question, apiKey, provider);
      match ParseResponse(response)
      case UnexpectedFormat(raw) => FormatError(raw)
      case Parsed(answer, clues) =>
        if action == GiveMeClues then Recorded(Entry(question, clues, Clues))
        else Recorded(Entry(question, answer, Answer))
  }

  /**
   * A validated submission reaches the provider: its reply is the provider's
   * text (or the fault's error text), and it is a format error exactly when
   * that reply lacks "Clues".
   */
  lemma SubmissionFormatError(apiKey: string, question: string, action: Action,
                              provider: (string, string) -> ProviderOutcome)
    requires Validate(apiKey, question) == Accepted
    ensures GenerateResponse(question, apiKey, provider) ==
              match provider(question, apiKey)
              case Reply(content) => content
              case Fault(message) => ErrorPrefix + message
    ensures Submission(apiKey, question, action, provider).FormatError? <==>
              !Contains(GenerateResponse(question, apiKey, provider), CluesWord)
    ensures Submission(apiKey, question, action, provider).FormatError? ==>
              Submission(apiKey, question, action, provider).response == GenerateResponse(question, apiKey, provider)
  {
  }

  /**
   * A recorded entry keeps the question, has the type the action asked for,
   * holds the matching part of the parsed reply, and never contains "Clues:".
   */
  lemma SubmissionRecordsChosenPart(apiKey: string, question: string, action: Action,
                                    provider: (string, string) -> ProviderOutcome)
    requires Submission(apiKey, question, action, provider).Recorded?
    ensures var e := Submission(apiKey, question, action, provider).entry;
            var p := ParseResponse(GenerateResponse(question, apiKey, provider));
            && p.Parsed?
            && e.question == question
            && (action == GiveMeClues ==> e.kind == Clues && e.response == p.clues)
            && (action == ShowMeTheAnswer ==> e.kind == Answer && e.response == p.answer)
            && !Contains(e.response, CluesDelimiter)
  {
    ParsedPartsHaveNoDelimiter(GenerateResponse(question, apiKey, provider));
  }

  /**
   * End to end: a valid key and question, and a provider reply made of an
   * answer, "Clues:" and clues, record the stripped part the action chose.
   */
  lemma SubmissionOfWellFormedReply(apiKey: string, question: string, action: Action,
                                    provider: (string, string) -> ProviderOutcome, a: string, c: string)
    requires Validate(apiKey, question) == Accepted
    requires provider(question, apiKey) == Reply(a + CluesDelimiter + c)
    requires !Contains(a, CluesDelimiter) && !Contains(c, CluesDelimiter)
    ensures Submission(apiKey, question, action, provider) ==
              if action == GiveMeClues then Recorded(Entry(question, Strip(c), Clues))
              else Recorded(Entry(question, Strip(a), Answer))
  {
    ParseRoundTrip(a, c);
  }

  /**
   * An uploaded image only trips the empty-question warning when its OCR text
   * is non-empty whitespace; an empty OCR result becomes a question that passes.
   */
  lemma UploadedQuestionCheck(apiKey: string, ocrText: string)
    requires StartsWith(apiKey, KeyPrefix)
    ensures Validate(apiKey, QuestionOf(Uploaded(ocrText))) == QuestionRejected <==>
              ocrText != [] && AllSpace(ocrText)
  {
    assert NoTextFound[0] == 'N';
    assert !IsSpace(NoTextFound[0]);
  }

  /** The fixed no-key text is itself rejected by the parser as an unexpected format. */
  lemma NoKeyErrorIsUnexpectedFormat()
    ensures ParseResponse(NoKeyError) == UnexpectedFormat(NoKeyError)
  {
    assert 'C' !in NoKeyError;
    AbsentCharNotContains(NoKeyError, CluesWord, 0);
  }
}
