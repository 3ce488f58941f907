/**
  The artifact records, their enumerations and the request validators
  (src/models/artifact.ts).

  Enumerations are datatypes; `Name` and `Parse` functions translate them to
  and from the strings the schemas accept. Nullable response fields are
  `Option`s; every other field is required by its type. Timestamps are the
  clock's reading as a natural number, ids are strings.
*/
module ArtifactModel {
  import opened Wrappers

  type Id = string

  /** A reading of the clock; later instants are larger. */
  type Timestamp = nat

  datatype ArtifactType = LinkedInPost | Image
  datatype ArtifactState = Draft | Final
  datatype GenerationType = AiGenerated | UserEdited

  const MaxContentLength: nat := 50000
  const MaxFeedbackLength: nat := 2000

  /** A row of the artifacts table. */
  datatype Artifact = Artifact(
    id: Id,
    storyId: Id,
    artifactType: ArtifactType,
    state: ArtifactState,
    currentVersion: int,
    createdAt: Timestamp,
    updatedAt: Timestamp,
    finalizedAt: Option<Timestamp>,
    sourceArtifactId: Option<Id>)

  /** A row of the artifact versions table. */
  datatype ArtifactVersion = ArtifactVersion(
    id: Id,
    artifactId: Id,
    version: int,
    content: string,
    userFeedback: Option<string>,
    createdAt: Timestamp,
    generationType: GenerationType)

  /** An artifact together with the content of the version it points to. */
  datatype ArtifactWithVersion = ArtifactWithVersion(
    artifact: Artifact,
    currentVersionContent: string,
    currentVersionFeedback: Option<string>,
    currentVersionGenerationType: GenerationType)

  /** The outcome of a request validator: the accepted value, or zod's message. */
  datatype Validated<T> = Accepted(value: T) | Rejected(message: string)

  function ArtifactTypeName(t: ArtifactType): string {
    match t
    case LinkedInPost => "linkedin_post"
    case Image => "image"
  }

  function ArtifactStateName(s: ArtifactState): string {
    match s
    case Draft => "draft"
    case Final => "final"
  }

  function GenerationTypeName(g: GenerationType): string {
    match g
    case AiGenerated => "ai_generated"
    case UserEdited => "user_edited"
  }

  /** `z.enum(ARTIFACT_TYPES)`, the `type` field of `CreateArtifactSchema`: only the two listed names are accepted. */
  function ParseArtifactType(s: string): (r: Option<ArtifactType>)
    ensures r.Some? <==> s == "linkedin_post" || s == "image"
  {
    if s == "linkedin_post" then Some(LinkedInPost)
    else if s == "image" then Some(Image)
    else None
  }

  /** `z.enum(ARTIFACT_STATES)`. */
  function ParseArtifactState(s: string): (r: Option<ArtifactState>)
    ensures r.Some? <==> s == "draft" || s == "final"
  {
    if s == "draft" then Some(Draft)
    else if s == "final" then Some(Final)
    else None
  }

  /** `z.enum(GENERATION_TYPES)`. */
  function ParseGenerationType(s: string): (r: Option<GenerationType>)
    ensures r.Some? <==> s == "ai_generated" || s == "user_edited"
  {
    if s == "ai_generated" then Some(AiGenerated)
    else if s == "user_edited" then Some(UserEdited)
    else None
  }

  /** Parsing inverts naming, and accepts no other string, for each enumeration. */
  lemma {:induction false} EnumNamesRoundTrip(t: ArtifactType, st: ArtifactState, g: GenerationType, s: string)
    ensures ParseArtifactType(ArtifactTypeName(t)) == Some(t)
    ensures ParseArtifactState(ArtifactStateName(st)) == Some(st)
    ensures ParseGenerationType(GenerationTypeName(g)) == Some(g)
    ensures ParseArtifactType(s).Some? ==> ArtifactTypeName(ParseArtifactType(s).value) == s
    ensures ParseArtifactState(s).Some? ==> ArtifactStateName(ParseArtifactState(s).value) == s
    ensures ParseGenerationType(s).Some? ==> GenerationTypeName(ParseGenerationType(s).value) == s
  {
    assert "linkedin_post" != "image" by { assert "linkedin_post"[0] != "image"[0]; }
    assert "draft" != "final" by { assert "draft"[0] != "final"[0]; }
    assert "ai_generated" != "user_edited" by { assert "ai_generated"[0] != "user_edited"[0]; }
  }

  /** `UpdateArtifactContentSchema`: manual content of 1 to 50000 characters. */
  function ValidateContent(content: string): (r: Validated<string>)
    ensures r.Accepted? <==> 1 <= |content| <= MaxContentLength
    ensures r.Accepted? ==> r.value == content
    ensures content == [] ==> r == Rejected("Content cannot be empty")
    ensures |content| > MaxContentLength ==> r == Rejected("Content must be 50,000 characters or less")
  {
    if |content| < 1 then Rejected("Content cannot be empty")
    else if |content| > MaxContentLength then Rejected("Content must be 50,000 characters or less")
    else Accepted(content)
  }

  /** `AddFeedbackSchema`: feedback of 1 to 2000 characters. */
  function ValidateFeedback(feedback: string): (r: Validated<string>)
    ensures r.Accepted? <==> 1 <= |feedback| <= MaxFeedbackLength
    ensures r.Accepted? ==> r.value == feedback
    ensures feedback == [] ==> r == Rejected("Feedback cannot be empty")
    ensures |feedback| > MaxFeedbackLength ==> r == Rejected("Feedback must be 2,000 characters or less")
  {
    if |feedback| < 1 then Rejected("Feedback cannot be empty")
    else if |feedback| > MaxFeedbackLength then Rejected("Feedback must be 2,000 characters or less")
    else Accepted(feedback)
  }

  /** `ArtifactResponseSchema`: the one field constraint the types do not already carry. */
  predicate IsArtifactResponse(a: Artifact) {
    a.currentVersion > 0
  }

  /** `ArtifactVersionResponseSchema`. */
  predicate IsVersionResponse(v: ArtifactVersion) {
    v.version > 0
  }

  /** `ArtifactWithVersionResponseSchema`: the artifact response extended by its current version. */
  predicate IsArtifactWithVersionResponse(w: ArtifactWithVersion) {
    IsArtifactResponse(w.artifact)
  }

  /** The view of an artifact and one of its version rows that every service call returns. */
  function ViewOf(a: Artifact, v: ArtifactVersion): ArtifactWithVersion {
    ArtifactWithVersion(a, v.content, v.userFeedback, v.generationType)
  }
}
