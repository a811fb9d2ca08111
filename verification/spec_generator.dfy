/** The SpecGenerator page: the version list of one project's specifications,
    the generate button, the version selector and the four output tabs, as a
    state machine. Each asynchronous request is split into the handler that
    issues it and the step that settles it; `Generate` also composes the two
    into one atomic step. */
module SpecGenerator {
  import opened Common
  import opened Text
  import Projects
  import Specs

  type Spec = Specs.GeneratedSpec

  /** The component's state hooks. */
  datatype UiState = UiState(
    requirement: string, specs: seq<Spec>, currentSpec: Option<Spec>, loading: bool, activeTab: string)

  /** How a service promise settles. */
  datatype Fetch<+T> = Resolved(data: T) | Rejected

  /** A generate request in flight. Its success handler appends to `specs`
      as they were when the button was clicked (the handler's closure). */
  datatype PendingGenerate = PendingGenerate(projectId: int, requirement: string, capturedSpecs: seq<Spec>)

  const NoSpecYet := "No spec generated yet."

  /** The four tab keys the buttons set. */
  const TabKeys: set<string> := {"api", "db", "sequence", "mock"}

  /** The state on mount. */
  function Initial(): (s: UiState)
    ensures s.specs == [] && s.currentSpec.None? && !s.loading
    ensures s.requirement == "" && s.activeTab == "api" && s.activeTab in TabKeys
    ensures !GenerateEnabled(s)
  {
    UiState("", [], None, false, "api")
  }

  /** `loadSpecs` settled: on success the list is replaced and the newest
      (last) version is shown; on failure nothing changes. */
  function LoadSettled(s: UiState, fetched: Fetch<seq<Spec>>): (r: UiState)
    ensures fetched.Rejected? ==> r == s
    ensures fetched.Resolved? ==> r.specs == fetched.data
    ensures fetched.Resolved? && fetched.data != [] ==> r.currentSpec == Some(fetched.data[|fetched.data| - 1])
    ensures fetched.Resolved? && fetched.data == [] ==> r.currentSpec.None?
    ensures r.requirement == s.requirement && r.loading == s.loading && r.activeTab == s.activeTab
  {
    match fetched
    case Rejected => s
    case Resolved(data) =>
      s.(specs := data, currentSpec := if |data| > 0 then Some(data[|data| - 1]) else None)
  }

  /** Typing in the requirement box. */
  function EditRequirement(s: UiState, text: string): (r: UiState)
    ensures r.requirement == text
    ensures r.(requirement := s.requirement) == s
  {
    s.(requirement := text)
  }

  /** The generate button is enabled (`disabled={loading || !requirement.trim()}`
      is false): nothing in flight, and some character of the requirement is
      not whitespace. */
  function GenerateEnabled(s: UiState): (b: bool)
    ensures b <==> !s.loading && HasVisible(s.requirement)
  {
    !s.loading && !IsBlank(s.requirement)
  }

  /** `handleGenerate`: a blank requirement does nothing; otherwise loading
      starts and one request goes out with the requirement as typed. */
  function HandleGenerate(s: UiState, projectId: int): (r: (UiState, Option<PendingGenerate>))
    ensures r.1.None? <==> forall i :: 0 <= i < |s.requirement| ==> IsJsWhitespace(s.requirement[i])
    ensures r.1.None? ==> r.0 == s
    ensures r.1.Some? ==> r.0 == s.(loading := true) && r.1.value == PendingGenerate(projectId, s.requirement, s.specs)
  {
    if IsBlank(s.requirement) then (s, None)
    else (s.(loading := true), Some(PendingGenerate(projectId, s.requirement, s.specs)))
  }

  /** The generate request settled. Success appends the returned spec to the
      captured list and shows it; either way loading ends. */
  function GenerateSettled(s: UiState, pending: PendingGenerate, outcome: Fetch<Spec>): (r: UiState)
    ensures !r.loading
    ensures outcome.Resolved? ==> r.specs == pending.capturedSpecs + [outcome.data] && r.currentSpec == Some(outcome.data)
    ensures outcome.Rejected? ==> r.specs == s.specs && r.currentSpec == s.currentSpec
    ensures r.requirement == s.requirement && r.activeTab == s.activeTab
  {
    match outcome
    case Rejected => s.(loading := false)
    case Resolved(spec) => s.(specs := pending.capturedSpecs + [spec], currentSpec := Some(spec), loading := false)
  }

  /** A click on the enabled button whose request settles before anything
      else happens. */
  function Generate(s: UiState, projectId: int, outcome: Fetch<Spec>): (r: UiState)
    requires !s.loading && HasVisible(s.requirement)
  {
    var (started, pending) := HandleGenerate(s, projectId);
    GenerateSettled(started, pending.value, outcome)
  }

  /** The atomic generate: success appends the returned spec at the end and
      shows it; failure keeps the list and the shown spec; loading is off
      afterwards in both cases. */
  lemma GenerateOutcome(s: UiState, projectId: int, outcome: Fetch<Spec>)
    requires !s.loading && HasVisible(s.requirement)
    ensures var r := Generate(s, projectId, outcome);
      && !r.loading && r.requirement == s.requirement && r.activeTab == s.activeTab
      && (outcome.Resolved? ==> r.specs == s.specs + [outcome.data] && r.currentSpec == Some(outcome.data))
      && (outcome.Rejected? ==> r == s)
  {
    var (started, pending) := HandleGenerate(s, projectId);
    assert pending.Some? && pending.value.capturedSpecs == s.specs;
  }

  /** Index of the first version with id `k`. */
  function FirstWithId(specs: seq<Spec>, k: int): Option<nat> {
    FirstIndex(specs, (sp: Spec) => sp.id == k)
  }

  /** The selector's change handler: the first version whose id is `k`, or
      nothing (`undefined`) when no version has that id. */
  function SelectVersion(s: UiState, k: int): (r: UiState)
    ensures r.(currentSpec := s.currentSpec) == s
    ensures r.currentSpec.None? <==> forall i :: 0 <= i < |s.specs| ==> s.specs[i].id != k
    ensures r.currentSpec.Some? ==>
      exists i :: 0 <= i < |s.specs| && s.specs[i] == r.currentSpec.value
                  && r.currentSpec.value.id == k && forall j :: 0 <= j < i ==> s.specs[j].id != k
  {
    match FirstWithId(s.specs, k)
    case None => s.(currentSpec := None)
    case Some(i) => s.(currentSpec := Some(s.specs[i]))
  }

  /** With distinct ids, picking the id of version `j` shows version `j`. */
  lemma SelectPicksThatVersion(s: UiState, j: nat)
    requires j < |s.specs|
    requires forall a, b :: 0 <= a < b < |s.specs| ==> s.specs[a].id != s.specs[b].id
    ensures SelectVersion(s, s.specs[j].id).currentSpec == Some(s.specs[j])
  {
    var i := FirstWithId(s.specs, s.specs[j].id).value;
    assert s.specs[i].id == s.specs[j].id;
  }

  /** The version selector is rendered only for two or more versions. */
  predicate SelectorShown(s: UiState) {
    |s.specs| > 1
  }

  /** What the content area shows: the empty-state text, a text pane (whose
      content may be null), the diagram pane, or nothing. */
  datatype View = Placeholder(message: string) | TextPane(content: Option<string>) | DiagramPane(source: string) | Empty

  /** `renderTabContent`. */
  function RenderTabContent(s: UiState): (v: View)
    ensures s.currentSpec.None? ==> v == Placeholder(NoSpecYet)
    ensures s.currentSpec.Some? ==>
      var sp := s.currentSpec.value;
      && (s.activeTab == "api" ==> v == TextPane(sp.apiSpec))
      && (s.activeTab == "db" ==> v == TextPane(Some(sp.dbSchema)))
      && (s.activeTab == "sequence" ==> v == DiagramPane(sp.sequenceDiagram))
      && (s.activeTab == "mock" ==> v == TextPane(Some(sp.mockData)))
    ensures v.Empty? <==> s.currentSpec.Some? && s.activeTab !in TabKeys
  {
    match s.currentSpec
    case None => Placeholder(NoSpecYet)
    case Some(sp) =>
      if s.activeTab == "api" then TextPane(sp.apiSpec)
      else if s.activeTab == "db" then TextPane(Some(sp.dbSchema))
      else if s.activeTab == "sequence" then DiagramPane(sp.sequenceDiagram)
      else if s.activeTab == "mock" then TextPane(Some(sp.mockData))
      else Empty
  }

  /** The four tab buttons. */
  datatype TabButton = ApiButton | DbButton | SequenceButton | MockButton

  /** The key each button's click handler sets; distinct buttons set
      distinct keys. */
  function TabKey(b: TabButton): (k: string)
    ensures k in TabKeys
    ensures k == "api" <==> b == ApiButton
    ensures k == "db" <==> b == DbButton
    ensures k == "sequence" <==> b == SequenceButton
    ensures k == "mock" <==> b == MockButton
  {
    match b
    case ApiButton => "api"
    case DbButton => "db"
    case SequenceButton => "sequence"
    case MockButton => "mock"
  }

  /** Each button shows the section its label names: "API Spec" the API
      section, "DB Schema" the schema, "Sequence" the diagram, "Mock Data"
      the mock data. */
  lemma TabButtonShowsItsSection(s: UiState, b: TabButton)
    requires s.currentSpec.Some?
    ensures var sp := s.currentSpec.value;
      var v := RenderTabContent(s.(activeTab := TabKey(b)));
      && (b == ApiButton ==> v == TextPane(sp.apiSpec))
      && (b == DbButton ==> v == TextPane(Some(sp.dbSchema)))
      && (b == SequenceButton ==> v == DiagramPane(sp.sequenceDiagram))
      && (b == MockButton ==> v == TextPane(Some(sp.mockData)))
  {
  }

  /** The page together with the generate request in flight, if any. */
  datatype Page = Page(ui: UiState, projectId: int, inFlight: seq<PendingGenerate>)

  /** What can happen on the page. A click on a disabled button and a choice
      in a selector that is not rendered have no effect; a load may settle
      at any time (it is issued on mount and whenever the project changes).
      The dashboard passes a newly selected project to the mounted page
      without a `key`, so a project change keeps every state hook. */
  datatype Event =
    | ProjectChanged(newProjectId: int)
    | Typed(text: string)
    | ClickGenerate
    | ClickTab(button: TabButton)
    | Pick(id: int)
    | LoadArrived(fetched: Fetch<seq<Spec>>)
    | GenerateArrived(outcome: Fetch<Spec>)

  /** One event on the page. A disabled click, a pick in a hidden selector
      and a generate reply with nothing in flight change nothing; an enabled
      click starts loading and queues one request with the requirement as
      typed; a reply settles the oldest request in flight. Only a project
      change changes the project, and it leaves everything else as it was. */
  function Step(p: Page, e: Event): (r: Page)
    ensures e.ProjectChanged? ==> r == p.(projectId := e.newProjectId)
    ensures !e.ProjectChanged? ==> r.projectId == p.projectId
    ensures e.Typed? ==> r.ui == p.ui.(requirement := e.text) && r.inFlight == p.inFlight
    ensures e.LoadArrived? ==> r.ui == LoadSettled(p.ui, e.fetched) && r.inFlight == p.inFlight
    ensures e.ClickGenerate? && !GenerateEnabled(p.ui) ==> r == p
    ensures e.ClickGenerate? && GenerateEnabled(p.ui) ==>
      && r.ui == p.ui.(loading := true)
      && r.inFlight == p.inFlight + [PendingGenerate(p.projectId, p.ui.requirement, p.ui.specs)]
    ensures e.ClickTab? ==> r.ui == p.ui.(activeTab := TabKey(e.button)) && r.inFlight == p.inFlight
    ensures e.Pick? && !SelectorShown(p.ui) ==> r == p
    ensures e.Pick? && SelectorShown(p.ui) ==> r.ui == SelectVersion(p.ui, e.id) && r.inFlight == p.inFlight
    ensures e.GenerateArrived? && p.inFlight == [] ==> r == p
    ensures e.GenerateArrived? && p.inFlight != [] ==>
      && r.inFlight == p.inFlight[1..]
      && !r.ui.loading
      && (e.outcome.Resolved? ==>
            r.ui == p.ui.(specs := p.inFlight[0].capturedSpecs + [e.outcome.data],
                          currentSpec := Some(e.outcome.data), loading := false))
      && (e.outcome.Rejected? ==> r.ui == p.ui.(loading := false))
  {
    match e
    case ProjectChanged(id) => p.(projectId := id)
    case Typed(text) => p.(ui := EditRequirement(p.ui, text))
    case ClickGenerate =>
      if !GenerateEnabled(p.ui) then p
      else
        var (ui, pending) := HandleGenerate(p.ui, p.projectId);
        if pending.None? then p.(ui := ui) else p.(ui := ui, inFlight := p.inFlight + [pending.value])
    case ClickTab(b) => p.(ui := p.ui.(activeTab := TabKey(b)))
    case Pick(k) => if SelectorShown(p.ui) then p.(ui := SelectVersion(p.ui, k)) else p
    case LoadArrived(fetched) => p.(ui := LoadSettled(p.ui, fetched))
    case GenerateArrived(outcome) =>
      if p.inFlight == [] then p
      else p.(ui := GenerateSettled(p.ui, p.inFlight[0], outcome), inFlight := p.inFlight[1..])
  }

  function Run(p: Page, events: seq<Event>): Page
    decreases |events|
  {
    if events == [] then p else Run(Step(p, events[0]), events[1..])
  }

  /** The page invariant: at most one generate request is in flight, the
      button shows "Generating..." exactly while one is, and the active tab
      is one of the four keys. */
  predicate PageInvariant(p: Page) {
    && |p.inFlight| <= 1
    && (p.ui.loading <==> |p.inFlight| == 1)
    && p.ui.activeTab in TabKeys
  }

  /** Each event keeps the page invariant. */
  lemma StepKeepsInvariant(p: Page, e: Event)
    requires PageInvariant(p)
    ensures PageInvariant(Step(p, e))
  {
    match e
    case ClickGenerate =>
      if GenerateEnabled(p.ui) {
        assert !IsBlank(p.ui.requirement);
        assert p.inFlight == [];
      }
    case _ =>
  }

  /** From the freshly mounted page, any sequence of events keeps the
      invariant, so two generate requests are never in flight together. */
  lemma {:induction false} RunKeepsInvariant(p: Page, events: seq<Event>)
    requires PageInvariant(p)
    ensures PageInvariant(Run(p, events))
    decreases |events|
  {
    if events != [] {
      StepKeepsInvariant(p, events[0]);
      RunKeepsInvariant(Step(p, events[0]), events[1..]);
    }
  }

  /** From mount, after any events, the page invariant holds, and the
      content area never falls to the empty default branch. */
  lemma MountedPageKeepsInvariant(projectId: int, events: seq<Event>)
    ensures PageInvariant(Run(Page(Initial(), projectId, []), events))
    ensures RenderTabContent(Run(Page(Initial(), projectId, []), events).ui) != Empty
  {
    RunKeepsInvariant(Page(Initial(), projectId, []), events);
  }

  /** Switching project and generating before the new project's list has
      loaded: the request goes to the new project, but its reply is appended
      to the list of the project shown before the switch. */
  lemma SwitchThenGenerateMixesLists(p: Page, newProjectId: int, spec: Spec)
    requires p.inFlight == [] && !p.ui.loading && HasVisible(p.ui.requirement)
    ensures var q := Step(Step(p, ProjectChanged(newProjectId)), ClickGenerate);
      q.inFlight == [PendingGenerate(newProjectId, p.ui.requirement, p.ui.specs)]
    ensures var r := Step(Step(Step(p, ProjectChanged(newProjectId)), ClickGenerate), GenerateArrived(Resolved(spec)));
      && r.projectId == newProjectId
      && r.ui.specs == p.ui.specs + [spec]
      && r.ui.currentSpec == Some(spec)
      && !r.ui.loading && r.inFlight == []
  {
  }

  /** Loading from the backend: the page lists exactly the project's stored
      specs and shows the last one listed. */
  lemma LoadShowsProjectSpecs(s: UiState, store: Specs.SpecStore, projectId: int)
    ensures var r := LoadSettled(s, Resolved(Specs.GetSpecsByProject(store, projectId)));
      && (forall sp :: multiset(r.specs)[sp] == if sp.projectId == projectId then multiset(store.rows)[sp] else 0)
      && (r.currentSpec.Some? ==> r.currentSpec.value in store.rows && r.currentSpec.value.projectId == projectId)
      && (r.currentSpec.None? <==> forall i :: 0 <= i < |store.rows| ==> store.rows[i].projectId != projectId)
  {
    var data := Specs.GetSpecsByProject(store, projectId);
    if data == [] {
      forall i | 0 <= i < |store.rows|
        ensures store.rows[i].projectId != projectId
      {
        assert store.rows[i] in store.rows;
      }
    } else {
      assert data[|data| - 1] in data;
    }
  }

  /** End to end: a generate the backend accepts shows a spec carrying the
      requirement exactly as typed, appended as the newest version, whose
      sequence tab draws the requirement. */
  lemma GenerateShowsBackendSpec(s: UiState, projects: Projects.ProjectStore, store: Specs.SpecStore, projectId: int,
                                 ai: string -> Option<string>, now: int)
    requires !s.loading && HasVisible(s.requirement)
    requires Projects.FindById(projects, projectId).Some?
    ensures var saved := Specs.GenerateSpec(projects, store, projectId, Some(s.requirement), ai, now);
      var r := Generate(s, projectId, Resolved(saved.1.body));
      && r.specs == s.specs + [saved.1.body]
      && r.currentSpec.Some? && r.currentSpec.value.requirementDescription == Some(s.requirement)
      && RenderTabContent(r.(activeTab := "sequence")) == DiagramPane(Specs.DiagramPrefix + s.requirement)
  {
    var saved := Specs.GenerateSpec(projects, store, projectId, Some(s.requirement), ai, now);
    GenerateOutcome(s, projectId, Resolved(saved.1.body));
  }
}
