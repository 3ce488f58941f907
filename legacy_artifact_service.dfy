/**
  The earlier artifact service (src/services/artifactService.ts), the one the
  HTTP routes call.

  Its reads, `finalizeArtifact` and `duplicateArtifact` run the same queries
  as the engine of ArtifactService and are modelled by the same functions.
  What differs is creation and iteration: a failing generator does not fail
  the call, the new version is numbered `currentVersion + 1`, and every
  feedback or edit inserts a version, with no deduplication.
*/
module LegacyArtifactService {
  import opened Wrappers
  import opened Text
  import opened ArtifactModel
  import opened Store
  import opened ArtifactService

  /**
    The invariant of a database only this service writes: besides the
    general invariant, every artifact points at its highest version, so
    `currentVersion + 1` is a number no row has yet.
  */
  ghost predicate LegacyWellFormed(t: Tables) {
    WellFormed(t) && PointsAtHighest(t)
  }

  /** Every artifact points at its highest-numbered version. */
  ghost predicate PointsAtHighest(t: Tables) {
    forall id :: id in t.artifacts && id in t.versions ==> IsMax(t.artifacts[id].currentVersion, t.versions[id].Keys)
  }

  /** The content stored when generating from feedback fails. */
  function FeedbackPlaceholder(feedback: string): string {
    "[AI Generated content based on feedback: \"" + feedback + "\"]"
  }

  // ---------------------------------------------------------------------
  // Specifications
  // ---------------------------------------------------------------------

  /** `createArtifact`: like the engine's `create`, but a generator failure leaves the content empty. */
  function CreateArtifactSpec(t: Tables, storyId: Id, artifactType: ArtifactType, artifactId: Id, versionId: Id,
                              now: Timestamp, gen: Generator): Step<ArtifactWithVersion>
  {
    var a := Artifact(artifactId, storyId, artifactType, Draft, 1, now, now, None, None);
    if storyId !in t.stories then Step(t, Threw("Story not found"))
    else
      var content := match gen(artifactType, t.stories[storyId].content, None)
                     case Generated(c) => c
                     case GenerationFailed(_) => "";
      var v := ArtifactVersion(versionId, artifactId, 1, content, None, now, AiGenerated);
      Step(t.(artifacts := t.artifacts[artifactId := a], versions := t.versions[artifactId := map[1 := v]]),
           Returned(ViewOf(a, v)))
  }

  /** Insert `candidate` as version `currentVersion + 1` and point the artifact at it. */
  function Append(t: Tables, artifactId: Id, candidate: string, feedback: Option<string>,
                  generationType: GenerationType, versionId: Id, now: Timestamp): Step<ArtifactWithVersion>
    requires artifactId in t.artifacts
  {
    var a := t.artifacts[artifactId];
    var n := a.currentVersion + 1;
    var v := ArtifactVersion(versionId, artifactId, n, candidate, feedback, now, generationType);
    var a' := a.(currentVersion := n, updatedAt := now);
    Step(t.(artifacts := t.artifacts[artifactId := a'], versions := t.versions[artifactId := RowsOf(t, artifactId)[n := v]]),
         Returned(ViewOf(a', v)))
  }

  /** `addFeedbackAndIterate`: regenerate from the story and the feedback, falling back to a placeholder. */
  function AddFeedbackAndIterateSpec(t: Tables, artifactId: Id, feedback: string, versionId: Id, now: Timestamp,
                                     gen: Generator): Step<ArtifactWithVersion>
  {
    if artifactId !in t.artifacts then Step(t, ReturnedNull)
    else
      var a := t.artifacts[artifactId];
      if a.state != Draft then Step(t, Threw("Cannot add feedback to finalized artifact"))
      else if a.storyId !in t.stories then Step(t, Threw("Story not found"))
      else
        var content := match gen(a.artifactType, t.stories[a.storyId].content, Some(feedback))
                       case Generated(c) => c
                       case GenerationFailed(_) => FeedbackPlaceholder(feedback);
        Append(t, artifactId, content, Some(feedback), AiGenerated, versionId, now)
  }

  /** `updateArtifactContent`: store the user's content as the next version. */
  function UpdateArtifactContentSpec(t: Tables, artifactId: Id, content: string, versionId: Id,
                                     now: Timestamp): Step<ArtifactWithVersion>
  {
    if artifactId !in t.artifacts then Step(t, ReturnedNull)
    else if t.artifacts[artifactId].state != Draft then Step(t, Threw("Cannot edit finalized artifact"))
    else Append(t, artifactId, content, None, UserEdited, versionId, now)
  }

  /** `getArtifactsByStoryId`: every artifact of the story, newest first, without joining their versions. */
  ghost function GetArtifactsByStoryId(t: Tables, storyId: Id): (r: seq<Artifact>)
    ensures |r| == |StoryArtifactIds(t, storyId)|
    ensures exists order :: IsNewestFirst(t.artifacts, StoryArtifactIds(t, storyId), order) && |order| == |r|
                            && forall i :: 0 <= i < |r| ==> r[i] == t.artifacts[order[i]]
    ensures forall id :: id in StoryArtifactIds(t, storyId) ==> exists i :: 0 <= i < |r| && r[i] == t.artifacts[id]
    ensures forall i :: 0 <= i < |r| ==> r[i].storyId == storyId && r[i] in t.artifacts.Values
    ensures forall i, j :: 0 <= i < j < |r| ==> r[i].createdAt >= r[j].createdAt
  {
    var ids := StoryArtifactIds(t, storyId);
    var order := NewestFirst(t.artifacts, ids);
    var r := seq(|order|, i requires 0 <= i < |order| => t.artifacts[order[i]]);
    ListingOfOrder(t.artifacts, ids, order, r);
    assert forall i :: 0 <= i < |r| ==> r[i].storyId == storyId by {
      forall i | 0 <= i < |r| ensures r[i].storyId == storyId {
        assert order[i] in ids;
      }
    }
    r
  }

  /** The records of a newest-first listing of `ids`: each id's record, no other, newest first. */
  lemma {:induction false} ListingOfOrder(arts: map<Id, Artifact>, ids: set<Id>, order: seq<Id>, r: seq<Artifact>)
    requires IsNewestFirst(arts, ids, order) && |r| == |order|
    requires forall i :: 0 <= i < |r| ==> r[i] == arts[order[i]]
    ensures |r| == |ids|
    ensures forall id :: id in ids ==> exists i :: 0 <= i < |r| && r[i] == arts[id]
    ensures forall i :: 0 <= i < |r| ==> r[i] in arts.Values
    ensures forall i, j :: 0 <= i < j < |r| ==> r[i].createdAt >= r[j].createdAt
  {
    forall id | id in ids ensures exists i :: 0 <= i < |r| && r[i] == arts[id] {
      var i :| 0 <= i < |order| && order[i] == id;
      assert r[i] == arts[id];
    }
  }

  // ---------------------------------------------------------------------
  // The service methods on the database
  // ---------------------------------------------------------------------

  method CreateArtifact(db: Db, storyId: Id, artifactType: ArtifactType, artifactId: Id, versionId: Id,
                        now: Timestamp, gen: Generator) returns (r: Outcome<ArtifactWithVersion>)
    modifies db
    ensures var s := CreateArtifactSpec(old(db.Snapshot()), storyId, artifactType, artifactId, versionId, now, gen);
            db.Snapshot() == s.tables && r == s.reply
  {
    var artifact := Artifact(artifactId, storyId, artifactType, Draft, 1, now, now, None, None);
    if storyId !in db.stories {
      return Threw("Story not found");
    }
    var story := db.stories[storyId];
    var initialContent := "";
    var generated := gen(artifactType, story.content, None);
    if generated.Generated? {
      initialContent := generated.content;
    }
    var version := ArtifactVersion(versionId, artifactId, 1, initialContent, None, now, AiGenerated);
    db.artifacts := db.artifacts[artifactId := artifact];
    db.versions := db.versions[artifactId := map[1 := version]];
    return Returned(ViewOf(artifact, version));
  }

  method AddFeedbackAndIterate(db: Db, artifactId: Id, feedback: string, versionId: Id, now: Timestamp,
                               gen: Generator) returns (r: Outcome<ArtifactWithVersion>)
    modifies db
    ensures var s := AddFeedbackAndIterateSpec(old(db.Snapshot()), artifactId, feedback, versionId, now, gen);
            db.Snapshot() == s.tables && r == s.reply
  {
    if artifactId !in db.artifacts {
      return ReturnedNull;
    }
    var artifact := db.artifacts[artifactId];
    if artifact.state != Draft {
      return Threw("Cannot add feedback to finalized artifact");
    }
    var newVersion := artifact.currentVersion + 1;
    if artifact.storyId !in db.stories {
      return Threw("Story not found");
    }
    var story := db.stories[artifact.storyId];
    var newContent := "";
    var generated := gen(artifact.artifactType, story.content, Some(feedback));
    if generated.Generated? {
      newContent := generated.content;
    } else {
      newContent := FeedbackPlaceholder(feedback);
    }
    var row := ArtifactVersion(versionId, artifactId, newVersion, newContent, Some(feedback), now, AiGenerated);
    var rows := ReadRows(db, artifactId);
    db.versions := db.versions[artifactId := rows[newVersion := row]];
    var updated := artifact.(currentVersion := newVersion, updatedAt := now);
    db.artifacts := db.artifacts[artifactId := updated];
    return Returned(ViewOf(updated, row));
  }

  method UpdateArtifactContent(db: Db, artifactId: Id, content: string, versionId: Id, now: Timestamp)
    returns (r: Outcome<ArtifactWithVersion>)
    modifies db
    ensures var s := UpdateArtifactContentSpec(old(db.Snapshot()), artifactId, content, versionId, now);
            db.Snapshot() == s.tables && r == s.reply
  {
    if artifactId !in db.artifacts {
      return ReturnedNull;
    }
    var artifact := db.artifacts[artifactId];
    if artifact.state != Draft {
      return Threw("Cannot edit finalized artifact");
    }
    var newVersion := artifact.currentVersion + 1;
    var row := ArtifactVersion(versionId, artifactId, newVersion, content, None, now, UserEdited);
    var rows := ReadRows(db, artifactId);
    db.versions := db.versions[artifactId := rows[newVersion := row]];
    var updated := artifact.(currentVersion := newVersion, updatedAt := now);
    db.artifacts := db.artifacts[artifactId := updated];
    return Returned(ViewOf(updated, row));
  }
}
