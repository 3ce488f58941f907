# Artifact versioning and story saving, modelled in Dafny

This project models the content side of the backend: a writer's **story**
and the **artifacts** generated from it (LinkedIn posts and images). Each
artifact is a version-controlled document:

- it is created as a `draft` at version 1 with AI-generated content;
- feedback (regenerated by the AI) and manual edits add versions;
- it can be restored to an older version, lose a version, or be deleted;
- once `final`, it is frozen and can only be duplicated into a new draft.

The content comparison that decides whether an edit is new compares text up
to whitespace, as `areContentsEqual` does.

Modules:

- `Text` (text.dfy): `trim`, the `\s+` collapse and `areContentsEqual` over
  the JavaScript whitespace set. A reference definition, the word sequence of
  a string, is the partner: `normalize` joins the words with single spaces,
  and two contents are equal exactly when their words are.
- `ArtifactModel` (artifact_models.dfy): the records, the three
  enumerations with their names, and the request validators with their exact
  messages.
- `Store` (store.dfy): the shared database as a class `Db` with the three
  tables the services rewrite:
  - stories;
  - artifacts;
  - versions, grouped by artifact and keyed by version number.

  It also holds the database invariant `WellFormed` and `Math.max` over
  version numbers, both as a function and as a loop.
- `ArtifactService` (artifact_service.dfy): the engine
  (`artifact.service.ts`). Every mutator appears twice:
  - a function from the tables to a `Step` (new tables and reply);
  - a method on `Db` that performs the source's reads and writes, proved equal
    to that function.

  Replies are `Returned`, `ReturnedNull` or `Threw(message)`, with the
  source's messages.
- `ArtifactProperties` (artifact_properties.dfy): the invariant is
  preserved by every mutator, plus the outcome of every call, the
  deduplication and numbering rules, and scenarios from the test suite.
- `LegacyArtifactService`, `LegacyProperties`: the earlier service
  (`artifactService.ts`), which the HTTP routes call. It has a legacy invariant
  (every artifact points at its highest version). Under that invariant, given
  the same generated or edited content, it coincides with the engine whenever
  the content is new, and an engine restore breaks it.
- `StoryService` (story_service.dfy): create, update, auto-save and the two
  lookups of `storyService.ts`, with their timestamp rules.

The AI generator, the clock and the id generator are parameters.

- A generator is any function of the artifact type, the story content and the
  feedback that yields content or fails with a message.
- Timestamps are natural numbers.
- Ids are strings, assumed fresh where the source draws a new uuid.

Where the source reads a row the invariant guarantees, the model still
keeps the source's error branch. Examples: "Current version not found",
"Failed to find new current version after removal". Those branches are then
shown unreachable under `WellFormed`.

**Version numbers can be reused.** The comment at
src/services/artifact.service.ts:227 says the new number is taken from the
highest existing one "to avoid collisions after restore", and the code numbers
a new version `max(existing) + 1` (src/services/artifact.service.ts:233-234
and 643-644). That avoids collisions with rows that exist, but not with rows
that were removed: after the highest version is deleted, the next edit is
given its number again, as `ArtifactProperties.DeletedTopNumberIsReused`
proves. The model keeps that behaviour.

The legacy service's `getArtifactById`, `getArtifactVersions`,
`getArtifactVersion`, `finalizeArtifact` and `duplicateArtifact` run the
same statements as the engine's `getById`, `getAllVersions`, `getVersion`,
`finalize` and `duplicate`. They are modelled by the same functions, and the
rows below for those engine members cover both.

## Model

| member | source | states |
|---|---|---|
| Text.Trim | src/utils/text.ts:3 | the trimmed text has no whitespace at either end, and is empty exactly when the text is all whitespace |
| Text.NormalizeJoinsWords | src/utils/text.ts:3 | `normalize` yields the whitespace-separated words of the text joined by single spaces |
| Text.NormalizeIsNormal | src/utils/text.ts:3 | a normalized text has no whitespace at either end, no two adjacent whitespace characters, and only single spaces between words |
| Text.NormalizeFixesExactlyNormal | src/utils/text.ts:3 | `normalize` leaves a text unchanged if and only if it is already in normal form |
| Text.NormalizeIdempotent | src/utils/text.ts:3 | normalizing twice equals normalizing once |
| Text.ContentsEqualIffSameWords | src/utils/text.ts:1-5 | two contents are equal if and only if they have the same sequence of words |
| Text.ContentsEqualIsEquivalence | src/utils/text.ts:1-5 | content equality is reflexive, symmetric and transitive |
| Text.SurroundingSpaceIsIgnored | src/utils/text.ts:1-5 | whitespace added before and after a text does not change its content |
| Text.TrailingNewlineVariantIsEqual | test/artifacts.test.ts:443-480 | the padded, newline-terminated variant from the deduplication test equals the stored content |
| ArtifactModel.ParseArtifactType | src/models/artifact.ts:3-6 | exactly `linkedin_post` and `image` are artifact types |
| ArtifactModel.ParseArtifactState | src/models/artifact.ts:8 | exactly `draft` and `final` are states |
| ArtifactModel.ParseGenerationType | src/models/artifact.ts:9 | exactly `ai_generated` and `user_edited` are generation types |
| ArtifactModel.EnumNamesRoundTrip | src/models/artifact.ts:3-9 | parsing inverts naming for all three enumerations, and every accepted string is a name |
| ArtifactModel.ValidateContent | src/models/artifact.ts:16-20 | content is accepted unchanged if and only if it has 1 to 50000 characters; otherwise the rejection carries the schema's message for the bound it breaks |
| ArtifactModel.ValidateFeedback | src/models/artifact.ts:22-26 | feedback is accepted unchanged if and only if it has 1 to 2000 characters; otherwise the rejection carries the schema's message for the bound it breaks |
| Store.MaxOf | src/services/artifact.service.ts:233 | `Math.max` over a non-empty set of version numbers is a member no smaller than any other |
| Store.MaxVersion | src/services/artifact.service.ts:227-234 | the loop over the rows finds that same maximum |
| ArtifactService.SortedDescending | src/services/artifact.service.ts:133-149 | the ordering lists each version number exactly once, strictly decreasing |
| ArtifactService.Snippet | src/services/artifact.service.ts:480-482 | an image's snippet is empty; a post's snippet is the prefix of its content of length min(150, length) |
| ArtifactService.NewestFirst | src/services/artifact.service.ts:462-468 | the listed artifacts are the given ones, each once, with `createdAt` non-increasing |
| ArtifactService.GetByStoryId | src/services/artifact.service.ts:448-484 | the entries are the artifacts of the story that have their current version row, each listed once as stored with the snippet of that version's content, newest first |
| ArtifactService.Create | src/services/artifact.service.ts:53-102 | the database after `create` and its reply are those of `CreateSpec` |
| ArtifactService.AddFeedback | src/services/artifact.service.ts:171-268 | the database after `addFeedback` and its reply are those of `AddFeedbackSpec` |
| ArtifactService.UpdateContent | src/services/artifact.service.ts:589-678 | the database after `updateContent` and its reply are those of `UpdateContentSpec` |
| ArtifactService.Commit | src/services/artifact.service.ts:203-251 | the shared deduplicate-or-append tail leaves the database and reply of `Revise` |
| ArtifactService.Finalize | src/services/artifact.service.ts:269-318 | the database after `finalize` and its reply are those of `FinalizeSpec` |
| ArtifactService.Duplicate | src/services/artifact.service.ts:319-383 | the database after `duplicate` and its reply are those of `DuplicateSpec` |
| ArtifactService.RestoreVersion | src/services/artifact.service.ts:384-447 | the database after `restoreVersion` and its reply are those of `RestoreVersionSpec` |
| ArtifactService.Delete | src/services/artifact.service.ts:485-498 | the database after `delete` and its reply are those of `DeleteSpec` |
| ArtifactService.DeleteVersion | src/services/artifact.service.ts:499-588 | the database after `deleteVersion` and its reply are those of `DeleteVersionSpec` |
| ArtifactProperties.CreatePreservesInvariant | src/services/artifact.service.ts:53-102 | creating an artifact under a fresh id keeps the database invariant |
| ArtifactProperties.AddFeedbackPreservesInvariant | src/services/artifact.service.ts:171-268 | adding feedback keeps the database invariant |
| ArtifactProperties.UpdateContentPreservesInvariant | src/services/artifact.service.ts:589-678 | a manual edit keeps the database invariant |
| ArtifactProperties.FinalizePreservesInvariant | src/services/artifact.service.ts:269-318 | finalizing keeps the database invariant |
| ArtifactProperties.DuplicatePreservesInvariant | src/services/artifact.service.ts:319-383 | duplicating under a fresh id keeps the database invariant |
| ArtifactProperties.RestoreVersionPreservesInvariant | src/services/artifact.service.ts:384-447 | restoring a version keeps the database invariant |
| ArtifactProperties.DeleteVersionPreservesInvariant | src/services/artifact.service.ts:499-588 | removing a version keeps the database invariant |
| ArtifactProperties.DraftIsNobodysSource | test/setup.ts:53 | under the invariant no artifact names a draft as its source, so the set-null on delete never fires |
| ArtifactProperties.DeleteRemovesOnlyTheDraft | src/services/artifact.service.ts:485-498 | `delete` answers false for a missing artifact, throws for a final one, and otherwise removes exactly that artifact and its versions, keeping the invariant |
| ArtifactProperties.CreateOutcome | src/services/artifact.service.ts:53-102 | `create` throws for a missing story or a failing generator and changes nothing; otherwise it adds a draft at version 1 with the generated content, and the database changes by exactly that artifact and its one row |
| ArtifactProperties.DuplicateOutcome | src/services/artifact.service.ts:319-383 | `duplicate` is null exactly for a missing source and throws for a draft; for a final source it adds the draft record (new id, the source's story and type, version 1, created and updated now, the source recorded) and one AI-generated row holding the source's current content verbatim, replies with exactly that pair, and the database changes by exactly that artifact and its one row |
| ArtifactProperties.RevisionNeedsExistingDraft | src/services/artifact.service.ts:171-177 | feedback and edits answer null exactly for a missing artifact and throw for a final one, changing nothing |
| ArtifactProperties.EqualContentAddsNoVersion | src/services/artifact.service.ts:203-224 | a candidate equal to the current content up to whitespace adds no version, keeps the current version, moves only `updatedAt`, and replies with the current version and `newVersionCreated` false |
| ArtifactProperties.DifferentContentAddsVersionAboveAll | src/services/artifact.service.ts:226-251 | any other candidate becomes a new current row numbered above every existing number, one above the highest, and nothing else changes but `updatedAt` |
| ArtifactProperties.FeedbackVersionRule | src/services/artifact.service.ts:171-268 | for a draft, a generator failure throws its message; otherwise a version is created if and only if the generated content differs, and it records the feedback as AI-generated |
| ArtifactProperties.EditVersionRule | src/services/artifact.service.ts:589-678 | for a draft, a version is created if and only if the content differs, and it has no feedback and is user-edited; otherwise the versions are unchanged |
| ArtifactProperties.FinalizeOutcome | src/services/artifact.service.ts:269-318 | `finalize` refuses a draft exactly when its current content is all whitespace; otherwise the draft becomes final with `finalizedAt` = `updatedAt` = now, the reply is that record with its current version, and no version changes |
| ArtifactProperties.RestoreOnlyChangesCurrent | src/services/artifact.service.ts:384-447 | `restoreVersion` succeeds exactly for an existing version of a draft, never changes a version row, and restoring the current version changes nothing |
| ArtifactProperties.DeleteVersionOutcome | src/services/artifact.service.ts:499-588 | removing a version is null for a missing artifact and refused for a final one, changing nothing; for a draft it refuses the last one before checking existence, removes exactly that row, and only when the current version goes makes the highest remaining number current |
| ArtifactProperties.FinalArtifactIsFrozen | src/services/artifact.service.ts:171-678 | every mutator refuses a final artifact with its own message and leaves the database unchanged |
| ArtifactProperties.GettersUnderInvariant | src/services/artifact.service.ts:103-170 | under the invariant `getById` finds exactly the stored artifacts with their current content and valid responses, and `getVersion` finds exactly the stored numbers |
| ArtifactProperties.AllVersionsNewestFirst | src/services/artifact.service.ts:133-149 | `getAllVersions` lists every row of the artifact once, highest version first |
| ArtifactProperties.StoryListingUnderInvariant | src/services/artifact.service.ts:448-484 | under the invariant the join drops nothing: the listing holds every artifact of the story exactly once, as stored, with the snippet of its current content |
| ArtifactProperties.RestoreThenEditCreatesFour | test/artifacts.test.ts:1174-1222 | with versions 1 to 3, restoring version 1 and editing it creates version 4 and keeps all four rows |
| ArtifactProperties.DeletedTopNumberIsReused | src/services/artifact.service.ts:638-661 | removing the current version 3 of 1 to 3 points at 2, and the next new edit is numbered 3 again |
| LegacyArtifactService.GetArtifactsByStoryId | src/services/artifactService.ts:374-392 | every artifact of the story exactly once, as stored, without any join, newest first |
| LegacyArtifactService.CreateArtifact | src/services/artifactService.ts:18-78 | the database after `createArtifact` and its reply are those of `CreateArtifactSpec` |
| LegacyArtifactService.AddFeedbackAndIterate | src/services/artifactService.ts:151-210 | the database after `addFeedbackAndIterate` and its reply are those of `AddFeedbackAndIterateSpec` |
| LegacyArtifactService.UpdateArtifactContent | src/services/artifactService.ts:212-255 | the database after `updateArtifactContent` and its reply are those of `UpdateArtifactContentSpec` |
| LegacyProperties.AppendAddsOneVersion | src/services/artifactService.ts:220-239 | on a legacy database every feedback or edit adds exactly one row, numbered current + 1, holding the candidate |
| LegacyProperties.AppendPreservesLegacyInvariant | src/services/artifactService.ts:220-239 | appending to a draft keeps the database invariant and every artifact at its highest version |
| LegacyProperties.AppendIsReviseOfNewContent | src/services/artifactService.ts:159 | on a legacy database current + 1 equals highest + 1, so for new content the legacy append writes what the engine writes |
| LegacyProperties.CreateArtifactKeepsLegacyInvariant | src/services/artifactService.ts:18-78 | `createArtifact` under a fresh id keeps the legacy invariant |
| LegacyProperties.CreateArtifactOutcome | src/services/artifactService.ts:36-49 | `createArtifact` fails only for a missing story; a failing generator leaves version 1 empty, and given the same generated content it gives exactly the engine's result |
| LegacyProperties.AddFeedbackAndIterateOutcome | src/services/artifactService.ts:151-210 | null exactly for a missing artifact, a throw for a final one, and otherwise always a new AI-generated version current + 1 holding the feedback and the generated content or the placeholder, the database changing by exactly that row and the artifact's current version and update time |
| LegacyProperties.UpdateArtifactContentOutcome | src/services/artifactService.ts:212-255 | null exactly for a missing artifact, a throw for a final one, and otherwise always a new user-edited version current + 1 with no feedback, even for unchanged content, the database changing by exactly that row and the artifact's current version and update time |
| LegacyProperties.LegacyListingMatchesEngine | src/services/artifactService.ts:374-392 | under the invariant the legacy listing holds the same artifacts in the same order as the engine's, each of the story's artifacts once |
| LegacyProperties.LegacyAgreesWithEngineOnNewContent | src/services/artifactService.ts:151-255 | given the same generated or edited content, when it differs from the current version, both services' feedback and edit produce the same database |
| LegacyProperties.FinalizeAndDuplicateKeepLegacyInvariant | src/services/artifactService.ts:257-372 | `finalizeArtifact` and `duplicateArtifact` keep the legacy invariant |
| LegacyProperties.RestoreBreaksLegacyNumbering | src/services/artifactService.ts:220 | after an engine restore of version 1 out of 1 and 2, the legacy edit picks number 2, which is taken |
| StoryService.GetStoryById | src/services/storyService.ts:7-20 | a story is found exactly when stored, and is the stored one |
| StoryService.GetStoryBySparkId | src/services/storyService.ts:22-35 | null exactly when no story belongs to the spark; otherwise a stored story of that spark |
| StoryService.CreateStory | src/services/storyService.ts:37-60 | the database after `createStory` and its reply are those of `CreateStorySpec` |
| StoryService.UpdateStory | src/services/storyService.ts:62-88 | the database after `updateStory` and its reply are those of `UpdateStorySpec` |
| StoryService.AutoSaveStory | src/services/storyService.ts:90-101 | the database after `autoSaveStory` and its reply are those of `AutoSaveStorySpec` |
| StoryService.CreateThenGetStory | src/services/storyService.ts:37-60 | a created story reads back as created, with its content defaulting to empty and its three timestamps equal to now, and no other story or table changes |
| StoryService.UpdateStoryTimestamps | src/services/storyService.ts:62-88 | `updateStory` is null exactly for an unknown id. Otherwise it stores the content and sets `updatedAt` to now. It sets `lastAutoSavedAt` to now only for an auto-save. It keeps the id, spark and creation time, and replies with what a read returns |
| StoryService.AutoSaveKeepsUpdatedAt | src/services/storyService.ts:90-101 | `autoSaveStory` stores the content and save time, never moves `updatedAt`, and replies with the save time even for an unknown id |
| StoryService.TwoAutoSavePaths | src/services/storyService.ts:62-101 | an auto-save through `updateStory` differs from `autoSaveStory` only in also moving `updatedAt` |
| StoryService.StoryOperationsKeepInvariant | src/services/storyService.ts:37-101 | no story operation breaks the database invariant |

## Left out

- The AI service, its prompts and its HTTP calls are a generator parameter. The engine's `generateContent` ignores the feedback and picks the image or completion call by type; any such function is a valid generator.
- LegacyProperties.CreateArtifactOutcome, LegacyProperties.LegacyAgreesWithEngineOnNewContent: the two services call different AI functions (the engine its own `generateContent`, which ignores the feedback; the legacy service `generateArtifactContent` of aiService.ts, which puts the feedback into the prompt). The model gives both the same generator, so these lemmas compare the services only on the same generated content; the real services need not generate the same content for the same request.
- Clock and uuid generation are parameters. Freshness of a new id is a precondition of the lemmas that need it; no database ever saw a uuid collision.
- Formats are not modelled: uuid strings, ISO-8601 timestamps (as natural numbers) and their string ordering in `ORDER BY`.
- Lengths count characters, not UTF-16 code units as JavaScript `length` does.
- SQL is not modelled: each service call is one atomic step, and the interleaving of concurrent calls between their awaited statements is left out.
- LegacyArtifactService.AddFeedbackAndIterateSpec: a row numbered `currentVersion + 1` may already exist (only after an engine restore or removal). The source then inserts a second row with that number, because nothing makes (artifact, version) unique. The map of rows replaces it instead. `LegacyProperties.RestoreBreaksLegacyNumbering` shows when this happens.
- LegacyArtifactService.UpdateArtifactContentSpec: the same duplicate-row case as `AddFeedbackAndIterateSpec`.
- StoryService.GetStoryBySparkId: which of several stories of one spark the query returns is unspecified, so the contract only says it is one of them.
- ArtifactService.GetByStoryId, LegacyArtifactService.GetArtifactsByStoryId: the order among artifacts with equal `createdAt` is unspecified.
- StoryService.UpdateStory: the request schema's 50,000-character bound on story content is checked before the call and is not modelled; src/models/story.ts is not part of this model.
- The HTTP routes, the sparks service, the logger, migrations and seeding are not part of this model.
- The `ON DELETE CASCADE` from stories to artifacts is not modelled, because no modelled operation deletes a story.
