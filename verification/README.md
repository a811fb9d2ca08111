# AI spec generator: a Dafny model of its core

The application lets a member sign up, reset a forgotten password and edit
their profile. A member owns projects. For each project they type a
requirement, and the backend asks Google Gemini for a technical
specification. It saves the answer as a new version of the project's
specification, and a page shows the versions in four tabs (API, DB schema,
sequence diagram, mock data).

This project models the logic behind that flow as immutable datatypes and
pure transition functions that return `(new store, response)`:

- `Common`: nullable values (`Option`) and controller responses. The
  responses are `ok`, `badRequest`, `notFound`, or an exception escaping the
  controller. The module also holds the single-result query outcome of the
  Spring Data repositories.
- `Text`: JavaScript `String.prototype.trim`, which uses the ECMAScript
  whitespace set. It also holds Java `String.replace` of a one-character
  target and the text form of a random UUID.
- `Members`: the `member` table with its unique constraints on email, phone
  and member code, IDENTITY ids, the update timestamp, and the repository
  queries.
- `Auth`: sign-up, forgot-password and reset-password (`AuthController`).
- `Profile`: read profile, update profile and change password
  (`MemberController`).
- `Projects`: the ownership rules of `ProjectController`.
- `Gemini`: `AIService`. It covers the API-key guard, the two prompts, and
  the decision tree that extracts text from a Gemini response. The HTTP
  exchange is an oracle that delivers a body or raises.
- `Specs`: `SpecController`. It lists a project's versions and builds and
  saves a new version.
- `SpecGenerator`: the React page as a state machine. Each promise is split
  into the handler that issues it and the step that settles it. `Generate`
  is the atomic composition of the two.

The following are parameters, not modelled behaviour:
- the clock (`now`, an integer number of seconds);
- the password encoder (a pair of functions `encode` and `matches`);
- the random UUID;
- the HTTP transport to Gemini;
- the text of the JVM's null-pointer message.

The model assumes nothing about the encoder. Only
`Profile.NewPasswordIsNextOldPassword` states, as a precondition
(`Members.Consistent`), that a hash matches the password it was made from.

Specification versions are only listed and generated. No endpoint or page
handler edits, refines, deletes or exports a version. The frontend spec
service exposes only list and generate, and nothing calls `refineContent`.
The model has no such operations either.

## Model

| member | source | states |
|---|---|---|
| Common.Filter | backend/src/main/java/com/example/specgenerator/repository/GeneratedSpecRepository.java:8 | a derived list query such as `findByProjectId` returns the rows that satisfy its condition, each as many times as it occurs in the table, and no other row |
| Text.Trim | frontend/src/components/SpecGenerator.jsx:45 | `requirement.trim()` is the slice of the requirement left after dropping JavaScript whitespace at both ends: everything outside it is whitespace, it is empty exactly when every character is whitespace, and otherwise it starts and ends with non-whitespace |
| Text.Without | backend/src/main/java/com/example/specgenerator/controller/AuthController.java:100 | `replace("-", "")` removes every dash and keeps every other character |
| Text.UuidTextLength | backend/src/main/java/com/example/specgenerator/controller/AuthController.java:116 | the text of a random UUID, used as the reset token, is 36 characters long, so it fits the 64-character token column |
| Text.UuidWithoutDashes | backend/src/main/java/com/example/specgenerator/controller/AuthController.java:100 | the member code made from a random UUID is its 32 hex digits, so it has no dash and fits the 32-character column |
| Members.Insert | backend/src/main/java/com/example/specgenerator/model/Member.java:12-45 | saving a new member succeeds exactly when no existing row shares its email, member code or non-null phone and every text fits its column width (code 32, email 255, phone 20, salt 64, name 50, gender 1); on success the row is appended with the next identity and both timestamps set to now, and the table's constraints still hold |
| Members.Stamped | backend/src/main/java/com/example/specgenerator/model/Member.java:62-64 | `@UpdateTimestamp` stamps the update time only when the save changes some other column; a save that changes nothing leaves the stored row as it was |
| Members.UpdateRow | backend/src/main/java/com/example/specgenerator/model/Member.java:12-70 | a save that changes nothing issues no UPDATE and succeeds; otherwise it fails, with a data-integrity violation, exactly when it would clash with another row or exceed a column width; on success only that row changes, to the saved entity with the update time stamped as above; for a row keeping its email and code, success is exactly "no other member holds the new phone and it fits"; the table's constraints still hold |
| Members.ExistsByEmail | backend/src/main/java/com/example/specgenerator/repository/MemberRepository.java:17 | true exactly when some member has that email |
| Members.ExistsByPhone | backend/src/main/java/com/example/specgenerator/repository/MemberRepository.java:19 | true exactly when some member has that (non-null) phone |
| Members.ClashOnlyOnPhone | backend/src/main/java/com/example/specgenerator/model/Member.java:13-17 | a row that keeps its email and member code can only clash with another row on its phone |
| Members.FindByEmail | backend/src/main/java/com/example/specgenerator/repository/MemberRepository.java:11 | the lookup finds no row exactly when no member has that email; a found row is the only one with it; with the email constraint, several rows never match |
| Members.FindByResetToken | backend/src/main/java/com/example/specgenerator/repository/MemberRepository.java:15 | the lookup finds no row exactly when nobody holds the token; a found row is the only holder; "several" only when at least two members hold it |
| Auth.RegisterUser | backend/src/main/java/com/example/specgenerator/controller/AuthController.java:76-107 | a used email gives "Error: Email is already in use!" even when the phone is also used; otherwise a used phone gives the phone error; both leave the table unchanged; past those checks, a member code already in use or a field wider than its column (reached only if bean validation let it through, which is not modelled) makes the save throw a data-integrity violation with the table unchanged; success appends exactly one member with the request's data, `encode(password)`, the UUID's text without dashes as member code, the default flags, and no salt, last login or reset token; it keeps every other row and the table's constraints |
| Auth.RegisterKeepsContactsDistinct | backend/src/main/java/com/example/specgenerator/controller/AuthController.java:78-88 | the email and phone checks alone keep all emails and all non-null phones distinct |
| Auth.ForgotPassword | backend/src/main/java/com/example/specgenerator/controller/AuthController.java:109-125 | an unknown email throws "Error: Member not found with email: …" and changes nothing; a known one gets the UUID text as token and an expiry 24 hours after now, saved as `@UpdateTimestamp` does: stamped with now, or left exactly as stored when it already held that token and expiry; no other member changes; a token wider than the 64-character column would make the save throw |
| Auth.ResetPassword | backend/src/main/java/com/example/specgenerator/controller/AuthController.java:127-144 | an unknown token throws "Error: Invalid or expired token."; an expiry before now gives "Error: Token has expired." and changes nothing; otherwise the password becomes `encode(newPassword)` and token and expiry are cleared; success implies a live token existed; a sole holder without an expiry makes the expiry check throw a null dereference, and a token held by two members makes the lookup throw an incorrect-result-size error, both changing nothing; neither is met when tokens and expiries are set together |
| Auth.ResetTokenSingleUse | backend/src/main/java/com/example/specgenerator/controller/AuthController.java:138-141 | after a successful reset, the same token is refused as invalid |
| Profile.GetMyProfile | backend/src/main/java/com/example/specgenerator/controller/MemberController.java:28-37 | an unknown caller throws "Error: Member not found."; otherwise the caller's row with the password hidden and every other field as stored |
| Profile.UpdateMyProfile | backend/src/main/java/com/example/specgenerator/controller/MemberController.java:39-53 | only the caller's name, phone, gender, birthday and update time change; success exactly when no other member holds the new phone and name, phone and gender fit their columns, otherwise a data-integrity violation with no change; resubmitting the stored profile changes nothing, not even the update time; an unknown caller throws "錯誤：找不到使用者" with no change; no other member's row changes |
| Profile.PageGenderRefused | frontend/src/components/Profile.jsx:147-150 | each gender the profile page offers ("Male", "Female", "Other") is longer than the one-character column, so submitting it makes the save throw and changes nothing |
| Profile.ChangePassword | backend/src/main/java/com/example/specgenerator/controller/MemberController.java:55-70 | a non-matching old password gives "錯誤：舊密碼不正確！" and changes nothing; a matching one stores `encode(newPassword)` and changes nothing else; the update time becomes now, unless the new hash equals the stored one and the row is left exactly as stored; no other member's row changes |
| Profile.NewPasswordIsNextOldPassword | backend/src/main/java/com/example/specgenerator/controller/MemberController.java:62-66 | with a consistent encoder, the new password is accepted as the old password of the next change |
| Projects.CallerId | backend/src/main/java/com/example/specgenerator/controller/ProjectController.java:28-30 | the caller is found exactly when some member has the principal's email, and is that member |
| Projects.FindById | backend/src/main/java/com/example/specgenerator/controller/ProjectController.java:49 | `findById` finds no row exactly when no project has that id; a found index holds a project with that id |
| Projects.OwnedBy | backend/src/main/java/com/example/specgenerator/controller/ProjectController.java:31 | `findByMemberId` lists exactly the projects with that owner, each with its multiplicity in the table |
| Projects.GetAllProjects | backend/src/main/java/com/example/specgenerator/controller/ProjectController.java:26-32 | exactly the caller's projects, each with its multiplicity in the table; an unknown caller throws "Member not found" |
| Projects.CreateProject | backend/src/main/java/com/example/specgenerator/controller/ProjectController.java:34-41 | the new project is owned by the caller whatever owner the payload names, and is appended with the next identity |
| Projects.GetProjectById | backend/src/main/java/com/example/specgenerator/controller/ProjectController.java:43-53 | the project is returned exactly when it exists and the caller owns it; otherwise not-found |
| Projects.UpdateProject | backend/src/main/java/com/example/specgenerator/controller/ProjectController.java:55-73 | a missing project or another owner's project throws its message and changes nothing; the owner replaces only name and description, keeping id, owner and creation time, and no other project changes |
| Projects.RemoveRow | backend/src/main/java/com/example/specgenerator/controller/ProjectController.java:88 | deleting a row leaves exactly the rows with another id |
| Projects.DeleteProject | backend/src/main/java/com/example/specgenerator/controller/ProjectController.java:75-91 | a missing project or another owner's project throws and removes nothing; the owner removes exactly that project |
| Gemini.ExtractText | backend/src/main/java/com/example/specgenerator/service/AIService.java:78-98 | null or empty candidates give "Error: No response from Gemini API"; null or empty parts give "Error: Invalid response format from Gemini API"; a null body, or a first candidate with a null content, is a caught null dereference reported as "Error calling Gemini API: " followed by the JVM message of that site; otherwise the first part's text |
| Gemini.CallGemini | backend/src/main/java/com/example/specgenerator/service/AIService.java:41-99 | without a key no request is sent; otherwise one request to the endpoint carrying the key; any exception becomes "Error calling Gemini API: " plus its message, so the call never throws; a null text only comes from a first part whose text is null |
| Gemini.GenerateSpecContent | backend/src/main/java/com/example/specgenerator/service/AIService.java:23-25 | without a key the key error comes back and nothing is sent; otherwise the prompt is sent unchanged and the reply is exactly `callGemini`'s, its error reports included |
| Gemini.RefineContent | backend/src/main/java/com/example/specgenerator/service/AIService.java:27-39 | without a key the key error comes back and nothing is sent; otherwise the composed refine prompt is sent and the reply is exactly `callGemini`'s |
| Gemini.RefinePromptLayout | backend/src/main/java/com/example/specgenerator/service/AIService.java:32-36 | the refine prompt holds the section type, then the instruction, then the current content, and ends with the no-markdown trailer |
| Specs.GetSpecsByProject | backend/src/main/java/com/example/specgenerator/controller/SpecController.java:29-32 | exactly the stored specs of that project, each with its multiplicity in the table |
| Specs.GenerationPrompt | backend/src/main/java/com/example/specgenerator/controller/SpecController.java:52-53 | a fixed instruction followed by the requirement, so the prompt ends with the requirement |
| Specs.GenerateSpec | backend/src/main/java/com/example/specgenerator/controller/SpecController.java:34-71 | an unknown project throws "Project not found" and stores nothing; otherwise exactly one spec is appended and returned; it holds the requirement verbatim (null included), the AI text verbatim, the fixed schema placeholder and "{}", and a diagram that is the fixed header followed by the requirement's Java string form |
| Specs.NullRequirementStillSaves | backend/src/main/java/com/example/specgenerator/controller/SpecController.java:37-66 | a payload without a requirement is not refused: a spec with a null requirement is saved, and the prompt and the diagram both end in "null" |
| Specs.UnconfiguredKeyStillSaves | backend/src/main/java/com/example/specgenerator/controller/SpecController.java:55-66 | without an API key the spec is still saved, with the key error as its API section |
| Specs.ConfiguredKeyForwardsPrompt | backend/src/main/java/com/example/specgenerator/controller/SpecController.java:52-55 | with a key, the reply is `callGemini`'s for the generation prompt, the request sent ends with the requirement's Java string form, and the saved API section is the reply's text |
| Specs.FailedCallStillSaves | backend/src/main/java/com/example/specgenerator/service/AIService.java:95-97 | a Gemini call that raises still yields a saved spec, whose API section is "Error calling Gemini API: " followed by the exception's message |
| SpecGenerator.Initial | frontend/src/components/SpecGenerator.jsx:10-14 | the page starts with an empty requirement, no versions, nothing shown, not loading, on the "api" tab, so the generate button starts disabled |
| SpecGenerator.LoadSettled | frontend/src/components/SpecGenerator.jsx:28-42 | a successful load replaces the list and shows its last element, or nothing for an empty list; a failed load changes nothing |
| SpecGenerator.EditRequirement | frontend/src/components/SpecGenerator.jsx:107-108 | typing changes only the requirement |
| SpecGenerator.GenerateEnabled | frontend/src/components/SpecGenerator.jsx:114 | the generate button is enabled exactly when not loading and some character of the requirement is not whitespace |
| SpecGenerator.HandleGenerate | frontend/src/components/SpecGenerator.jsx:44-48 | no request and no change exactly when the requirement is all whitespace; otherwise loading starts and one request carries the requirement as typed |
| SpecGenerator.GenerateSettled | frontend/src/components/SpecGenerator.jsx:49-57 | success appends the returned spec to the list captured at click time and shows it; failure keeps list and shown spec; loading ends either way |
| SpecGenerator.GenerateOutcome | frontend/src/components/SpecGenerator.jsx:44-59 | an uninterrupted generate appends the returned spec at the end and shows it, or on failure leaves the state as it was before the click |
| SpecGenerator.SelectVersion | frontend/src/components/SpecGenerator.jsx:178 | the shown spec becomes the first version with the chosen id, or nothing when none has it; nothing else changes |
| SpecGenerator.SelectPicksThatVersion | frontend/src/components/SpecGenerator.jsx:178 | with distinct ids, choosing a version's id shows that version |
| SpecGenerator.RenderTabContent | frontend/src/components/SpecGenerator.jsx:61-94 | with nothing shown every tab gives "No spec generated yet."; otherwise api, db, sequence and mock show the spec's API section, schema, diagram and mock data; the area is empty exactly for an unknown tab |
| SpecGenerator.TabKey | frontend/src/components/SpecGenerator.jsx:129-163 | each tab button sets its own key ("api", "db", "sequence", "mock"), and no two buttons set the same key |
| SpecGenerator.TabButtonShowsItsSection | frontend/src/components/SpecGenerator.jsx:61-163 | with a spec shown, each button displays the section its label names: API Spec the API section, DB Schema the schema, Sequence the diagram, Mock Data the mock data |
| SpecGenerator.Step | frontend/src/components/SpecGenerator.jsx:16-178 | a click on the disabled button, a pick while the selector is hidden (one version or none) and a generate reply with nothing in flight change nothing; an enabled click starts loading and queues one request carrying the project, the requirement as typed and the list as it was; a reply settles the oldest request, ends loading and otherwise changes only list and shown spec on success; a load that settles is applied as `LoadSettled`; typing and tab clicks change only the requirement or the tab; only a project change changes the project, and it keeps every state hook |
| SpecGenerator.SwitchThenGenerateMixesLists | frontend/src/components/Dashboard.jsx:96-122 | a project selected on the dashboard reaches the mounted page without a `key`, so a generate issued before the new list loads is sent for the new project while its reply is appended to the previous project's list |
| SpecGenerator.StepKeepsInvariant | frontend/src/components/SpecGenerator.jsx:112-120 | as the button is disabled while loading or blank, no event starts a second generate; loading holds exactly while one is in flight |
| SpecGenerator.RunKeepsInvariant | frontend/src/components/SpecGenerator.jsx:44-59 | over any sequence of events, at most one generate is in flight and loading holds exactly while one is |
| SpecGenerator.MountedPageKeepsInvariant | frontend/src/components/SpecGenerator.jsx:61-94 | from mount, after any events, at most one generate is in flight, and the content area never falls to the empty default branch |
| SpecGenerator.LoadShowsProjectSpecs | frontend/src/components/SpecGenerator.jsx:28-36 | loading from the backend lists exactly the project's stored specs, each with its multiplicity, and shows one of them, or nothing exactly when the project has none |
| SpecGenerator.GenerateShowsBackendSpec | frontend/src/components/SpecGenerator.jsx:48-51 | a generate the backend accepts shows, as the newest version, a spec with the requirement as typed (never null), whose sequence tab draws that requirement |

## Left out

- Sign-in, JWT issuance and the user-details service: authentication is out of scope. The caller of the member and project endpoints is the email of the authenticated principal, given as a parameter.
- Bean validation of request payloads and NOT NULL columns are not modelled. The `member` table's unique constraints and column widths are, on the assumption that the database refuses an oversize value rather than truncating it.
- Members.FitsColumns: the width of the password hash column is not checked, because the hash is the encoder's output and the encoder is a parameter.
- Real password hashing, salt randomness and UUID randomness: the encoder and the UUID are parameters.
- Dates and times are integers. `LocalDateTime.now().plusHours(24)` is now plus 86400.
- The HTTP exchange with Gemini: it is an oracle. The request body's JSON layout and the `jsonMode` flag, which is passed but never read, are not modelled.
- Gemini.ExtractText: a null element inside the candidates or parts list is not modelled; it would fail with a null-pointer message of another site. A `text` that is not a string is not modelled either; it would raise a class-cast exception with its own message. Both would be caught and reported after "Error calling Gemini API: ".
- Specs.GenerateSpec: a payload without `projectId`, a non-numeric one, or a `requirement` that is not a string are not modelled. They would raise before the project lookup. A missing or null `requirement` is modelled.
- Projects.CreateProject: an id supplied in the payload, which would turn the save into a merge, is not modelled. The new project always gets the next identity.
- Projects.DeleteProject: the foreign key from generated specs to their project is not modelled. The model lets an owner delete a project that still has specs.
- The `Project` entity declares a `user` field while the controller calls `setMember`/`getMember`. The owner is modelled as the owning member's id.
- `getSpecsByProject` and `generateSpec` check no ownership. The model reproduces that and adds no check.
- Ordering of `findByProjectId` results: the query has no ORDER BY. The model returns table order, and the page treats the list as given.
- Sending the reset token by email, and the console print of it: this is I/O.
- Mermaid rendering, its timer, styling and the version labels' time formatting: these belong to a foreign library or presentation.
- The stale-closure behaviour of `handleGenerate` is modelled, not left out. A load that settles while a generate is in flight is overwritten by the generate's success, which appends to the list captured at click time.
- SpecGenerator.Step: the dashboard's project list and selection are not modelled; only the selected project's id reaching the mounted page is (`ProjectChanged`), together with the reload it triggers (`LoadArrived`).
