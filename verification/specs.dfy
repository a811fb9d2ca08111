/** SpecController: listing a project's generated specifications and
    generating a new one from a requirement. The AI service is a parameter
    (`ai`, the text `generateSpecContent` returns for a prompt). */
module Specs {
  import opened Common
  import Projects
  import Gemini

  /** One row of the generated_specs table; the project is referenced by id.
      The requirement is the request's, which may be null, and `apiSpec` is
      whatever the AI service returned, which may be null too. */
  datatype GeneratedSpec = GeneratedSpec(
    id: int, projectId: int, requirementDescription: Option<string>,
    apiSpec: Option<string>, dbSchema: string, sequenceDiagram: string, mockData: string,
    createdAt: int)

  /** The table in insertion order, and the next identity value. */
  datatype SpecStore = SpecStore(rows: seq<GeneratedSpec>, nextId: int)

  const PromptPrefix := "You are a technical architect. Based on the following requirement, generate a technical specification in JSON format with the following keys: 'apiSpec' (OpenAPI 3.0 YAML/JSON), 'dbSchema' (SQL), 'sequenceDiagram' (Mermaid syntax), 'mockData' (JSON example). Requirement: "
  const DbSchemaPlaceholder := "-- See API Spec for full details --"
  const DiagramPrefix := "sequenceDiagram\nUser->>System: "
  const EmptyMockData := "{}"
  const ProjectMissing := "Project not found"

  /** `findByProjectId`: the rows of one project (no order is promised), each
      exactly once per occurrence in the table. */
  function GetSpecsByProject(st: SpecStore, projectId: int): (r: seq<GeneratedSpec>)
    ensures forall s :: multiset(r)[s] == if s.projectId == projectId then multiset(st.rows)[s] else 0
    ensures forall s :: s in r <==> s in st.rows && s.projectId == projectId
  {
    Filter(st.rows, (s: GeneratedSpec) => s.projectId == projectId)
  }

  /** The prompt sent to the AI service: a fixed instruction, then the
      requirement verbatim at the end. */
  function GenerationPrompt(requirement: string): (p: string)
    ensures |p| == |PromptPrefix| + |requirement|
    ensures p[..|PromptPrefix|] == PromptPrefix
    ensures p[|p| - |requirement|..] == requirement
  {
    PromptPrefix + requirement
  }

  /** The record built for `requirement`: the requirement verbatim (null
      included), the AI text as the API section, and fixed or
      requirement-derived text for the other three sections; a null
      requirement reads "null" in the diagram. */
  predicate BuiltFrom(s: GeneratedSpec, projectId: int, requirement: Option<string>, aiText: Option<string>) {
    && s.projectId == projectId
    && s.requirementDescription == requirement
    && s.apiSpec == aiText
    && s.dbSchema == DbSchemaPlaceholder
    && s.sequenceDiagram == DiagramPrefix + JavaString(requirement)
    && s.mockData == EmptyMockData
  }

  /** `generateSpec`: for a known project, saves exactly one record and
      answers with that same record; for an unknown one, saves nothing. The
      requirement is `(String) payload.get("requirement")`, null when the
      payload has none; the prompt then ends in "null". */
  function GenerateSpec(projects: Projects.ProjectStore, st: SpecStore, projectId: int, requirement: Option<string>,
                        ai: string -> Option<string>, now: int)
    : (r: (SpecStore, Response<GeneratedSpec>))
    ensures Projects.FindById(projects, projectId).None? ==> r == (st, Thrown(Runtime(ProjectMissing)))
    ensures Projects.FindById(projects, projectId).Some? ==>
      && r.1.Ok?
      && BuiltFrom(r.1.body, projectId, requirement, ai(GenerationPrompt(JavaString(requirement))))
      && r.1.body.id == st.nextId && r.1.body.createdAt == now
      && r.0 == SpecStore(st.rows + [r.1.body], st.nextId + 1)
  {
    match Projects.FindById(projects, projectId)
    case None => (st, Thrown(Runtime(ProjectMissing)))
    case Some(_) =>
      var text := JavaString(requirement);
      var spec := GeneratedSpec(st.nextId, projectId, requirement, ai(GenerationPrompt(text)),
                                DbSchemaPlaceholder, DiagramPrefix + text, EmptyMockData, now);
      (SpecStore(st.rows + [spec], st.nextId + 1), Ok(spec))
  }

  /** The AI service as `generateSpec` calls it. */
  function GeminiText(svc: Gemini.Service): string -> Option<string> {
    (prompt: string) => Gemini.GenerateSpecContent(svc, prompt).text
  }

  /** An AI failure still yields a saved spec: without an API key the API
      section holds the key error, and the other sections are as usual. */
  lemma UnconfiguredKeyStillSaves(projects: Projects.ProjectStore, st: SpecStore, projectId: int, requirement: Option<string>,
                                  svc: Gemini.Service, now: int)
    requires Projects.FindById(projects, projectId).Some?
    requires !Gemini.KeyConfigured(svc)
    ensures var r := GenerateSpec(projects, st, projectId, requirement, GeminiText(svc), now);
      && r.1.Ok? && r.0.rows == st.rows + [r.1.body]
      && r.1.body.apiSpec == Some(Gemini.KeyMissing)
      && r.1.body.sequenceDiagram == DiagramPrefix + JavaString(requirement)
  {
    assert GeminiText(svc)(GenerationPrompt(JavaString(requirement))) == Some(Gemini.KeyMissing);
  }

  /** With a key, the spec's API section is the reply to a request carrying
      the generation prompt, which ends with the requirement. */
  lemma ConfiguredKeyForwardsPrompt(projects: Projects.ProjectStore, st: SpecStore, projectId: int, requirement: Option<string>,
                                    svc: Gemini.Service, now: int)
    requires Projects.FindById(projects, projectId).Some?
    requires Gemini.KeyConfigured(svc)
    ensures var text := JavaString(requirement);
      var reply := Gemini.GenerateSpecContent(svc, GenerationPrompt(text));
      var r := GenerateSpec(projects, st, projectId, requirement, GeminiText(svc), now);
      && reply == Gemini.CallGemini(svc, GenerationPrompt(text))
      && reply.sent.Some?
      && reply.sent.value.prompt[|reply.sent.value.prompt| - |text|..] == text
      && r.1.Ok? && r.1.body.apiSpec == reply.text
  {
  }

  /** A failed Gemini call does not fail the generation: the spec is saved
      with the caught exception's report, "Error calling Gemini API: " and
      its message, as its API section. */
  lemma FailedCallStillSaves(projects: Projects.ProjectStore, st: SpecStore, projectId: int, requirement: Option<string>,
                             svc: Gemini.Service, now: int)
    requires Projects.FindById(projects, projectId).Some?
    requires Gemini.KeyConfigured(svc)
    requires svc.transport(Gemini.Request(Gemini.Endpoint + svc.apiKey.value, GenerationPrompt(JavaString(requirement)))).Raised?
    ensures var message := svc.transport(Gemini.Request(Gemini.Endpoint + svc.apiKey.value, GenerationPrompt(JavaString(requirement)))).message;
      var r := GenerateSpec(projects, st, projectId, requirement, GeminiText(svc), now);
      && r.1.Ok? && r.0.rows == st.rows + [r.1.body]
      && r.1.body.apiSpec == Some(Gemini.CallFailed + JavaString(message))
  {
  }

  /** A payload without a requirement is not refused: the spec is saved with
      a null requirement, and both the prompt and the diagram end in "null". */
  lemma NullRequirementStillSaves(projects: Projects.ProjectStore, st: SpecStore, projectId: int,
                                  ai: string -> Option<string>, now: int)
    requires Projects.FindById(projects, projectId).Some?
    ensures var r := GenerateSpec(projects, st, projectId, None, ai, now);
      && r.1.Ok? && r.0.rows == st.rows + [r.1.body]
      && r.1.body.requirementDescription.None?
      && r.1.body.apiSpec == ai(GenerationPrompt("null"))
      && r.1.body.sequenceDiagram == DiagramPrefix + "null"
  {
    assert JavaString(None) == "null";
  }
}
