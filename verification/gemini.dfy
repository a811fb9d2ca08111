/** AIService: the API-key guard, the prompts, and the decision tree that pulls
    the generated text out of a Gemini `generateContent` response. The HTTP
    exchange itself is an oracle (`transport`) that either delivers a parsed
    body or raises an exception. */
module Gemini {
  import opened Common

  /** The parts of a response body the service reads: candidates, then the
      first candidate's content, then its parts, then the first part's text.
      Every level may be absent (null). */
  datatype Part = Part(text: Option<string>)
  datatype Content = Content(parts: Option<seq<Part>>)
  datatype Candidate = Candidate(content: Option<Content>)
  datatype ResponseBody = ResponseBody(candidates: Option<seq<Candidate>>)

  /** What `restTemplate.postForEntity` does: deliver a (possibly null) body,
      or throw with a (possibly null) message. */
  datatype HttpOutcome = Delivered(body: Option<ResponseBody>) | Raised(message: Option<string>)

  /** The request the service posts: the endpoint URL carrying the key, and
      the prompt as the single text part of the single content. */
  datatype Request = Request(url: string, prompt: string)

  /** The two places where `callGemini` may dereference null: the response
      body (`responseBody.get`) and the first candidate's content
      (`contentObj.get`). */
  datatype NullSite = NullBody | NullContent

  /** The configured service: the `gemini.api-key` property, the HTTP oracle,
      and the message the runtime gives a NullPointerException at each site
      (helpful messages name the null expression, so they may differ). */
  datatype Service = Service(apiKey: Option<string>, transport: Request -> HttpOutcome,
                             nullMessage: NullSite -> Option<string>)

  /** What a call returns (a Java String, so possibly null) and the request
      it sent, if any. */
  datatype Reply = Reply(text: Option<string>, sent: Option<Request>)

  const KeyMissing := "Error: Gemini API Key not configured."
  const NoResponse := "Error: No response from Gemini API"
  const InvalidFormat := "Error: Invalid response format from Gemini API"
  const CallFailed := "Error calling Gemini API: "
  const Endpoint := "https://generativelanguage.googleapis.com/v1beta/models/gemini-2.0-flash:generateContent?key="

  const RefineHeader := "You are a technical expert. Refine the following code based on the instruction. \n"
  const RefineTrailer := "Return ONLY the updated code without any markdown formatting (no ```)."

  /** `geminiApiKey == null || geminiApiKey.isEmpty()` is false. */
  predicate KeyConfigured(svc: Service) {
    svc.apiKey.Some? && svc.apiKey.value != ""
  }

  /** The body has a first candidate with content whose parts list is
      non-empty: the only shape from which text is extracted. */
  predicate HasFirstPart(body: Option<ResponseBody>) {
    && body.Some?
    && body.value.candidates.Some? && |body.value.candidates.value| > 0
    && body.value.candidates.value[0].content.Some?
    && body.value.candidates.value[0].content.value.parts.Some?
    && |body.value.candidates.value[0].content.value.parts.value| > 0
  }

  function FirstPartText(body: Option<ResponseBody>): Option<string>
    requires HasFirstPart(body)
  {
    body.value.candidates.value[0].content.value.parts.value[0].text
  }

  /** An error report the service returns in place of generated text. */
  predicate IsErrorReport(s: string) {
    s == NoResponse || s == InvalidFormat || (|CallFailed| <= |s| && s[..|CallFailed|] == CallFailed)
  }

  /** The parsing half of `callGemini`, inside its try block. A missing body
      or a missing content object is dereferenced and the resulting
      NullPointerException is caught like any other. */
  function ExtractText(body: Option<ResponseBody>, nullMessage: NullSite -> Option<string>): (r: Option<string>)
    ensures HasFirstPart(body) ==> r == FirstPartText(body)
    ensures !HasFirstPart(body) ==> r.Some? && IsErrorReport(r.value)
    ensures body.Some? && (body.value.candidates.None? || body.value.candidates.value == []) ==> r == Some(NoResponse)
    ensures body.Some? && body.value.candidates.Some? && body.value.candidates.value != []
            && body.value.candidates.value[0].content.Some?
            && (body.value.candidates.value[0].content.value.parts.None?
                || body.value.candidates.value[0].content.value.parts.value == [])
            ==> r == Some(InvalidFormat)
    ensures body.Some? && body.value.candidates.Some? && body.value.candidates.value != []
            && body.value.candidates.value[0].content.None?
            ==> r == Some(CallFailed + JavaString(nullMessage(NullContent)))
    ensures body.None? ==> r == Some(CallFailed + JavaString(nullMessage(NullBody)))
  {
    match body
    case None => Some(CallFailed + JavaString(nullMessage(NullBody)))
    case Some(b) =>
      match b.candidates
      case None => Some(NoResponse)
      case Some(cs) =>
        if cs == [] then Some(NoResponse)
        else match cs[0].content
          case None => Some(CallFailed + JavaString(nullMessage(NullContent)))
          case Some(c) =>
            match c.parts
            case None => Some(InvalidFormat)
            case Some(ps) => if ps == [] then Some(InvalidFormat) else ps[0].text
  }

  /** `callGemini`: no request without a key; otherwise one request whose
      failure, whatever it is, becomes an error report rather than an
      exception. */
  function CallGemini(svc: Service, prompt: string): (r: Reply)
    ensures !KeyConfigured(svc) ==> r == Reply(Some(KeyMissing), None)
    ensures KeyConfigured(svc) ==> r.sent == Some(Request(Endpoint + svc.apiKey.value, prompt))
    ensures KeyConfigured(svc) && svc.transport(r.sent.value).Raised? ==>
      r.text == Some(CallFailed + JavaString(svc.transport(r.sent.value).message))
    ensures KeyConfigured(svc) && svc.transport(r.sent.value).Delivered? ==>
      r.text == ExtractText(svc.transport(r.sent.value).body, svc.nullMessage)
    ensures r.text.None? ==>
      KeyConfigured(svc) && r.sent.Some? && svc.transport(r.sent.value).Delivered? && HasFirstPart(svc.transport(r.sent.value).body)
  {
    if !KeyConfigured(svc) then Reply(Some(KeyMissing), None)
    else
      var req := Request(Endpoint + svc.apiKey.value, prompt);
      match svc.transport(req)
      case Raised(m) => Reply(Some(CallFailed + JavaString(m)), Some(req))
      case Delivered(body) => Reply(ExtractText(body, svc.nullMessage), Some(req))
  }

  /** `generateSpecContent`: the prompt goes out unchanged, and the reply is
      whatever `callGemini` makes of it. */
  function GenerateSpecContent(svc: Service, prompt: string): (r: Reply)
    ensures !KeyConfigured(svc) ==> r == Reply(Some(KeyMissing), None)
    ensures KeyConfigured(svc) ==> r.sent.Some? && r.sent.value.prompt == prompt
    ensures KeyConfigured(svc) ==> r == CallGemini(svc, prompt)
  {
    CallGemini(svc, prompt)
  }

  const SectionLabel := "Section Type: "
  const InstructionLabel := "\nInstruction: "
  const ContentLabel := "\nCurrent Content:\n"
  const ContentEnd := "\n\n"

  /** The prompt `refineContent` composes. */
  function RefinePrompt(section: string, currentContent: string, instruction: string): string {
    RefineHeader + SectionLabel + section + InstructionLabel + instruction + ContentLabel
      + currentContent + ContentEnd + RefineTrailer
  }

  /** Where each piece of a nine-piece concatenation sits. */
  lemma PieceLayout(h: string, sl: string, s: string, il: string, i: string, cl: string, c: string, ce: string, t: string)
    ensures var p := h + sl + s + il + i + cl + c + ce + t;
      var s0 := |h| + |sl|;
      var i0 := s0 + |s| + |il|;
      var c0 := i0 + |i| + |cl|;
      && |p| == c0 + |c| + |ce| + |t|
      && p[..|h|] == h
      && p[s0..s0 + |s|] == s
      && p[i0..i0 + |i|] == i
      && p[c0..c0 + |c|] == c
      && p[|p| - |t|..] == t
  {
    var p := h + sl + s + il + i + cl + c + ce + t;
    var s0 := |h| + |sl|;
    var i0 := s0 + |s| + |il|;
    var c0 := i0 + |i| + |cl|;
    assert forall k :: 0 <= k < |h| ==> p[k] == h[k];
    assert forall k :: 0 <= k < |s| ==> p[s0 + k] == s[k];
    assert forall k :: 0 <= k < |i| ==> p[i0 + k] == i[k];
    assert forall k :: 0 <= k < |c| ==> p[c0 + k] == c[k];
    assert forall k :: 0 <= k < |t| ==> p[|p| - |t| + k] == t[k];
  }

  /** The refine prompt holds the section type, then the instruction, then
      the current content, each after its label, and ends with the
      no-markdown trailer. */
  lemma RefinePromptLayout(section: string, currentContent: string, instruction: string)
    ensures var p := RefinePrompt(section, currentContent, instruction);
      var s0 := |RefineHeader| + |SectionLabel|;
      var i0 := s0 + |section| + |InstructionLabel|;
      var c0 := i0 + |instruction| + |ContentLabel|;
      && |p| == c0 + |currentContent| + |ContentEnd| + |RefineTrailer|
      && p[..|RefineHeader|] == RefineHeader
      && p[s0..s0 + |section|] == section
      && p[i0..i0 + |instruction|] == instruction
      && p[c0..c0 + |currentContent|] == currentContent
      && p[|p| - |RefineTrailer|..] == RefineTrailer
  {
    PieceLayout(RefineHeader, SectionLabel, section, InstructionLabel, instruction, ContentLabel,
                currentContent, ContentEnd, RefineTrailer);
  }

  /** `refineContent`: the same key guard, then the composed prompt. */
  function RefineContent(svc: Service, section: string, currentContent: string, instruction: string): (r: Reply)
    ensures !KeyConfigured(svc) ==> r == Reply(Some(KeyMissing), None)
    ensures KeyConfigured(svc) ==> r.sent.Some? && r.sent.value.prompt == RefinePrompt(section, currentContent, instruction)
    ensures KeyConfigured(svc) ==> r == CallGemini(svc, RefinePrompt(section, currentContent, instruction))
  {
    if !KeyConfigured(svc) then Reply(Some(KeyMissing), None)
    else CallGemini(svc, RefinePrompt(section, currentContent, instruction))
  }
}
