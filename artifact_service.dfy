/**
  The artifact version-control engine (src/services/artifact.service.ts).

  Each operation appears twice: as a function from the tables before the call
  to a `Step` (the tables after it and the reply), and as a method on the
  database that performs the same reads and writes as the source, proved to
  agree with that function. The properties of the engine are lemmas about the
  functions (see ArtifactProperties).

  The content generator, the clock and the id generator are parameters: the
  generator is any function of the artifact type, the story content and the
  feedback, and may fail with a message.
*/
module ArtifactService {
  import opened Wrappers
  import opened Text
  import opened ArtifactModel
  import opened Store

  /** What the content generator produced: the content, or the message of the error it threw. */
  datatype Generated = Generated(content: string) | GenerationFailed(message: string)

  /** The AI content generator, given the artifact type, the story content and the feedback. */
  type Generator = (ArtifactType, string, Option<string>) -> Generated

  /** The reply of `addFeedback` and `updateContent`. */
  datatype Iteration = Iteration(view: ArtifactWithVersion, newVersionCreated: bool)

  /** An entry of `getByStoryId`: the artifact and the start of its current content. */
  datatype ArtifactListItem = ArtifactListItem(artifact: Artifact, contentSnippet: string)

  const SnippetLength: nat := 150

  // ---------------------------------------------------------------------
  // Read-only projections
  // ---------------------------------------------------------------------

  /** `getById`: the artifact with its current version, or null when either is missing. */
  function GetById(t: Tables, id: Id): Option<ArtifactWithVersion> {
    if id !in t.artifacts then None
    else
      var a := t.artifacts[id];
      if a.currentVersion !in RowsOf(t, id) then None
      else Some(ViewOf(a, RowsOf(t, id)[a.currentVersion]))
  }

  /** `getVersion`: the row with exactly that number, or null. */
  function GetVersion(t: Tables, artifactId: Id, version: int): Option<ArtifactVersion> {
    if version in RowsOf(t, artifactId) then Some(RowsOf(t, artifactId)[version]) else None
  }

  /** The numbers of a set, largest first. */
  function SortedDescending(s: set<int>): (r: seq<int>)
    ensures |r| == |s|
    ensures forall i :: 0 <= i < |r| ==> r[i] in s
    ensures forall k :: k in s ==> k in r
    ensures forall i, j :: 0 <= i < j < |r| ==> r[i] > r[j]
    decreases |s|
  {
    if s == {} then []
    else
      var m := MaxOf(s);
      var rest := SortedDescending(s - {m});
      assert forall i :: 0 <= i < |rest| ==> rest[i] < m;
      [m] + rest
  }

  /** `getAllVersions`: every row of the artifact, ordered by version number, highest first. */
  function GetAllVersions(t: Tables, artifactId: Id): seq<ArtifactVersion> {
    var rows := RowsOf(t, artifactId);
    var order := SortedDescending(rows.Keys);
    seq(|order|, i requires 0 <= i < |order| => rows[order[i]])
  }

  /** The list entry's snippet: empty for images, otherwise the first 150 characters. */
  function Snippet(a: Artifact, content: string): (r: string)
    ensures a.artifactType == Image ==> r == []
    ensures a.artifactType == LinkedInPost ==>
              r <= content && |r| == (if |content| < SnippetLength then |content| else SnippetLength)
  {
    if a.artifactType == Image then []
    else if |content| <= SnippetLength then content
    else content[..SnippetLength]
  }

  /** Every artifact of a story. */
  ghost function StoryArtifactIds(t: Tables, storyId: Id): set<Id> {
    set id | id in t.artifacts && t.artifacts[id].storyId == storyId
  }

  /** The artifacts of a story that the inner join with their current version keeps. */
  ghost function JoinedIds(t: Tables, storyId: Id): set<Id> {
    set id | id in t.artifacts && t.artifacts[id].storyId == storyId
                && t.artifacts[id].currentVersion in RowsOf(t, id)
  }

  /** `order` lists the artifacts `ids`, each once, newest first. */
  ghost predicate IsNewestFirst(arts: map<Id, Artifact>, ids: set<Id>, order: seq<Id>) {
    && ids <= arts.Keys
    && |order| == |ids|
    && (forall i :: 0 <= i < |order| ==> order[i] in ids)
    && (forall id :: id in ids ==> id in order)
    && (forall i, j :: 0 <= i < j < |order| ==> order[i] != order[j])
    && (forall i, j :: 0 <= i < j < |order| ==> arts[order[i]].createdAt >= arts[order[j]].createdAt)
  }

  /** A non-empty set of artifacts has a newest member. */
  lemma {:induction false} NewestExists(arts: map<Id, Artifact>, ids: set<Id>)
    requires ids != {} && ids <= arts.Keys
    ensures exists n :: n in ids && forall j :: j in ids ==> arts[j].createdAt <= arts[n].createdAt
    decreases |ids|
  {
    var x := NonEmptyHasElement(ids);
    if ids != {x} {
      NewestExists(arts, ids - {x});
      var n' :| n' in ids - {x} && forall j :: j in ids - {x} ==> arts[j].createdAt <= arts[n'].createdAt;
      var n := if arts[x].createdAt <= arts[n'].createdAt then n' else x;
      forall j | j in ids ensures arts[j].createdAt <= arts[n].createdAt {
        if j != x {
          assert j in ids - {x};
        }
      }
    } else {
      forall j | j in ids ensures arts[j].createdAt <= arts[x].createdAt {
        assert j == x;
      }
    }
  }

  /** Prepending `n` to a listing of the other ids lists exactly `ids`. */
  lemma {:induction false} PrependCovers(ids: set<Id>, n: Id, order': seq<Id>)
    requires n in ids
    requires forall i :: 0 <= i < |order'| ==> order'[i] in ids - {n}
    requires forall id :: id in ids - {n} ==> id in order'
    ensures forall i :: 0 <= i < |[n] + order'| ==> ([n] + order')[i] in ids
    ensures forall id :: id in ids ==> id in [n] + order'
  {
    var order := [n] + order';
    forall i | 0 <= i < |order| ensures order[i] in ids {
      if i > 0 {
        assert order[i] == order'[i - 1];
      }
    }
    forall id | id in ids ensures id in order {
      if id != n {
        assert id in ids - {n};
        var k :| 0 <= k < |order'| && order'[k] == id;
        assert order[k + 1] == id;
      }
    }
  }

  /** Prepending `n`, newest and absent from a distinct newest-first listing, keeps it distinct and newest first. */
  lemma {:induction false} PrependKeepsOrder(arts: map<Id, Artifact>, n: Id, order': seq<Id>)
    requires n in arts && forall i :: 0 <= i < |order'| ==> order'[i] in arts && order'[i] != n
    requires forall i :: 0 <= i < |order'| ==> arts[order'[i]].createdAt <= arts[n].createdAt
    requires forall i, j :: 0 <= i < j < |order'| ==> order'[i] != order'[j]
    requires forall i, j :: 0 <= i < j < |order'| ==> arts[order'[i]].createdAt >= arts[order'[j]].createdAt
    ensures forall i, j :: 0 <= i < j < |[n] + order'| ==> ([n] + order')[i] != ([n] + order')[j]
    ensures forall i, j :: 0 <= i < j < |[n] + order'| ==>
              arts[([n] + order')[i]].createdAt >= arts[([n] + order')[j]].createdAt
  {
    var order := [n] + order';
    forall i, j | 0 <= i < j < |order| ensures order[i] != order[j] && arts[order[i]].createdAt >= arts[order[j]].createdAt {
      assert order[j] == order'[j - 1];
      if i > 0 {
        assert order[i] == order'[i - 1];
      }
    }
  }

  /** The newest artifact followed by a newest-first listing of the others lists them all newest first. */
  lemma {:induction false} PrependNewest(arts: map<Id, Artifact>, ids: set<Id>, n: Id, order': seq<Id>)
    requires n in ids && ids <= arts.Keys
    requires forall j :: j in ids ==> arts[j].createdAt <= arts[n].createdAt
    requires IsNewestFirst(arts, ids - {n}, order')
    ensures IsNewestFirst(arts, ids, [n] + order')
  {
    assert |ids - {n}| == |ids| - 1;
    PrependCovers(ids, n, order');
    PrependKeepsOrder(arts, n, order');
  }

  /** Every finite set of artifacts can be listed newest first (`ORDER BY created_at DESC`). */
  lemma {:induction false} NewestFirstExists(arts: map<Id, Artifact>, ids: set<Id>)
    requires ids <= arts.Keys
    ensures exists order :: IsNewestFirst(arts, ids, order)
    decreases |ids|
  {
    if ids == {} {
      assert IsNewestFirst(arts, ids, []);
    } else {
      NewestExists(arts, ids);
      var n :| n in ids && forall j :: j in ids ==> arts[j].createdAt <= arts[n].createdAt;
      NewestFirstExists(arts, ids - {n});
      var order' :| IsNewestFirst(arts, ids - {n}, order');
      PrependNewest(arts, ids, n, order');
    }
  }

  /** One newest-first listing of `ids`; ties in creation time may come in any order. */
  ghost function NewestFirst(arts: map<Id, Artifact>, ids: set<Id>): (order: seq<Id>)
    requires ids <= arts.Keys
    ensures IsNewestFirst(arts, ids, order)
  {
    NewestFirstExists(arts, ids);
    var order :| IsNewestFirst(arts, ids, order);
    order
  }

  /** The list entry of one artifact kept by the join. */
  ghost function ListItemOf(t: Tables, id: Id): ArtifactListItem
    requires id in t.artifacts && t.artifacts[id].currentVersion in RowsOf(t, id)
  {
    var a := t.artifacts[id];
    ArtifactListItem(a, Snippet(a, RowsOf(t, id)[a.currentVersion].content))
  }

  /**
    `getByStoryId`: the story's artifacts that have their current version row,
    newest first, each with a snippet of that version's content.
  */
  ghost function GetByStoryId(t: Tables, storyId: Id): (items: seq<ArtifactListItem>)
    ensures |items| == |JoinedIds(t, storyId)|
    ensures exists order :: IsNewestFirst(t.artifacts, JoinedIds(t, storyId), order) && |order| == |items|
                            && forall i :: 0 <= i < |items| ==> items[i] == ListItemOf(t, order[i])
    ensures forall i :: 0 <= i < |items| ==> items[i].artifact.storyId == storyId
    ensures forall i, j :: 0 <= i < j < |items| ==> items[i].artifact.createdAt >= items[j].artifact.createdAt
  {
    var ids := JoinedIds(t, storyId);
    var order := NewestFirst(t.artifacts, ids);
    seq(|order|, i requires 0 <= i < |order| => ListItemOf(t, order[i]))
  }

  // ---------------------------------------------------------------------
  // Specifications of the mutators
  // ---------------------------------------------------------------------

  /** `create`: a draft at version 1 holding freshly generated content. */
  function CreateSpec(t: Tables, storyId: Id, artifactType: ArtifactType, artifactId: Id, versionId: Id,
                      now: Timestamp, gen: Generator): Step<ArtifactWithVersion>
  {
    var a := Artifact(artifactId, storyId, artifactType, Draft, 1, now, now, None, None);
    if storyId !in t.stories then Step(t, Threw("Story not found"))
    else
      match gen(artifactType, t.stories[storyId].content, None)
      case GenerationFailed(e) => Step(t, Threw(e))
      case Generated(content) =>
        var v := ArtifactVersion(versionId, artifactId, 1, content, None, now, AiGenerated);
        Step(t.(artifacts := t.artifacts[artifactId := a], versions := t.versions[artifactId := map[1 := v]]),
             Returned(ViewOf(a, v)))
  }

  /**
    The shared end of `addFeedback` and `updateContent`: a candidate equal to the
    current content (ignoring whitespace) only touches `updatedAt`; any other
    candidate becomes a new current version numbered one above the highest.
  */
  function Revise(t: Tables, artifactId: Id, candidate: string, feedback: Option<string>,
                  generationType: GenerationType, versionId: Id, now: Timestamp): Step<Iteration>
    requires artifactId in t.artifacts
    requires t.artifacts[artifactId].currentVersion in RowsOf(t, artifactId)
  {
    var a, rows := t.artifacts[artifactId], RowsOf(t, artifactId);
    var current := rows[a.currentVersion];
    if AreContentsEqual(candidate, current.content) then
      var a' := a.(updatedAt := now);
      Step(t.(artifacts := t.artifacts[artifactId := a']), Returned(Iteration(ViewOf(a', current), false)))
    else
      var n := MaxOf(rows.Keys) + 1;
      var v := ArtifactVersion(versionId, artifactId, n, candidate, feedback, now, generationType);
      var a' := a.(currentVersion := n, updatedAt := now);
      Step(t.(artifacts := t.artifacts[artifactId := a'], versions := t.versions[artifactId := rows[n := v]]),
           Returned(Iteration(ViewOf(a', v), true)))
  }

  /** `addFeedback`: regenerate from the story and the feedback, then revise. */
  function AddFeedbackSpec(t: Tables, artifactId: Id, feedback: string, versionId: Id, now: Timestamp,
                           gen: Generator): Step<Iteration>
  {
    if artifactId !in t.artifacts then Step(t, ReturnedNull)
    else
      var a := t.artifacts[artifactId];
      if a.state != Draft then Step(t, Threw("Cannot add feedback to finalized artifact"))
      else if a.currentVersion !in RowsOf(t, artifactId) then Step(t, Threw("Current version not found"))
      else if a.storyId !in t.stories then Step(t, Threw("Story not found"))
      else
        match gen(a.artifactType, t.stories[a.storyId].content, Some(feedback))
        case GenerationFailed(e) => Step(t, Threw(e))
        case Generated(content) => Revise(t, artifactId, content, Some(feedback), AiGenerated, versionId, now)
  }

  /** `updateContent`: revise with the user's content. */
  function UpdateContentSpec(t: Tables, artifactId: Id, content: string, versionId: Id, now: Timestamp): Step<Iteration> {
    if artifactId !in t.artifacts then Step(t, ReturnedNull)
    else
      var a := t.artifacts[artifactId];
      if a.state != Draft then Step(t, Threw("Cannot edit finalized artifact"))
      else if a.currentVersion !in RowsOf(t, artifactId) then Step(t, Threw("Current version not found"))
      else Revise(t, artifactId, content, None, UserEdited, versionId, now)
  }

  /** `finalize`: a draft whose current content is not blank becomes final. */
  function FinalizeSpec(t: Tables, artifactId: Id, now: Timestamp): Step<ArtifactWithVersion> {
    if artifactId !in t.artifacts then Step(t, ReturnedNull)
    else
      var a := t.artifacts[artifactId];
      if a.state != Draft then Step(t, Threw("Artifact is already finalized"))
      else if a.currentVersion !in RowsOf(t, artifactId) then Step(t, Threw("Current version not found"))
      else
        var current := RowsOf(t, artifactId)[a.currentVersion];
        if Trim(current.content) == [] then Step(t, Threw("Cannot finalize artifact with empty content"))
        else
          var a' := a.(state := Final, finalizedAt := Some(now), updatedAt := now);
          Step(t.(artifacts := t.artifacts[artifactId := a']), Returned(ViewOf(a', current)))
  }

  /** `duplicate`: a final artifact is copied into a new draft at version 1. */
  function DuplicateSpec(t: Tables, sourceId: Id, newId: Id, versionId: Id, now: Timestamp): Step<ArtifactWithVersion> {
    if sourceId !in t.artifacts then Step(t, ReturnedNull)
    else
      var src := t.artifacts[sourceId];
      if src.state != Final then Step(t, Threw("Can only duplicate finalized artifacts"))
      else if src.currentVersion !in RowsOf(t, sourceId) then Step(t, Threw("Final version not found"))
      else
        var a := Artifact(newId, src.storyId, src.artifactType, Draft, 1, now, now, None, Some(sourceId));
        var v := ArtifactVersion(versionId, newId, 1, RowsOf(t, sourceId)[src.currentVersion].content, None, now, AiGenerated);
        Step(t.(artifacts := t.artifacts[newId := a], versions := t.versions[newId := map[1 := v]]),
             Returned(ViewOf(a, v)))
  }

  /** `restoreVersion`: point a draft at one of its existing versions. */
  function RestoreVersionSpec(t: Tables, artifactId: Id, targetVersion: int, now: Timestamp): Step<ArtifactWithVersion> {
    if artifactId !in t.artifacts then Step(t, ReturnedNull)
    else
      var a, rows := t.artifacts[artifactId], RowsOf(t, artifactId);
      if a.state != Draft then Step(t, Threw("Cannot restore versions in finalized artifact"))
      else if targetVersion !in rows then Step(t, Threw("Target version not found"))
      else if a.currentVersion == targetVersion then Step(t, Returned(ViewOf(a, rows[targetVersion])))
      else
        var a' := a.(currentVersion := targetVersion, updatedAt := now);
        Step(t.(artifacts := t.artifacts[artifactId := a']), Returned(ViewOf(a', rows[targetVersion])))
  }

  /** `ON DELETE SET NULL` on `source_artifact_id`: duplicates of a deleted artifact forget their source. */
  function ClearSource(arts: map<Id, Artifact>, deleted: Id): map<Id, Artifact> {
    map id | id in arts ::
      if arts[id].sourceArtifactId == Some(deleted) then arts[id].(sourceArtifactId := None) else arts[id]
  }

  /** `delete`: a draft disappears together with its versions (`ON DELETE CASCADE`). */
  function DeleteSpec(t: Tables, artifactId: Id): Step<bool> {
    if artifactId !in t.artifacts then Step(t, Returned(false))
    else if t.artifacts[artifactId].state != Draft then Step(t, Threw("Cannot delete finalized artifact"))
    else Step(Tables(t.stories, ClearSource(t.artifacts - {artifactId}, artifactId), t.versions - {artifactId}),
              Returned(true))
  }

  /** The current version after removing `version`: the highest remaining number if it was the current one. */
  function CurrentAfterRemoval(a: Artifact, rows: map<int, ArtifactVersion>, version: int): int
    requires (rows.Keys - {version}) != {}
  {
    if version == a.currentVersion then MaxOf(rows.Keys - {version}) else a.currentVersion
  }

  /** `deleteVersion`: remove one version row of a draft that has at least two. */
  function DeleteVersionSpec(t: Tables, artifactId: Id, version: int, now: Timestamp): Step<ArtifactWithVersion> {
    if artifactId !in t.artifacts then Step(t, ReturnedNull)
    else
      var a, rows := t.artifacts[artifactId], RowsOf(t, artifactId);
      if a.state != Draft then Step(t, Threw("Cannot remove versions from finalized artifact"))
      else if |rows| == 0 then Step(t, Threw("No versions found for artifact"))
      else if |rows| == 1 then Step(t, Threw("Cannot remove the last remaining version"))
      else if version !in rows then Step(t, Threw("Version not found"))
      else
        assert |rows.Keys - {version}| == |rows| - 1;
        var newCurrent := CurrentAfterRemoval(a, rows, version);
        var rows' := rows - {version};
        var a' := a.(currentVersion := newCurrent, updatedAt := now);
        var t' := t.(artifacts := t.artifacts[artifactId := a'], versions := t.versions[artifactId := rows']);
        if newCurrent !in rows' then Step(t', Threw("Failed to find new current version after removal"))
        else Step(t', Returned(ViewOf(a', rows'[newCurrent])))
  }

  // ---------------------------------------------------------------------
  // The service methods on the database
  // ---------------------------------------------------------------------

  /** The version rows of one artifact as stored in `db`. */
  method ReadRows(db: Db, artifactId: Id) returns (rows: map<int, ArtifactVersion>)
    ensures rows == RowsOf(db.Snapshot(), artifactId)
  {
    rows := if artifactId in db.versions then db.versions[artifactId] else map[];
  }

  method Create(db: Db, storyId: Id, artifactType: ArtifactType, artifactId: Id, versionId: Id,
                now: Timestamp, gen: Generator) returns (r: Outcome<ArtifactWithVersion>)
    modifies db
    ensures var s := CreateSpec(old(db.Snapshot()), storyId, artifactType, artifactId, versionId, now, gen);
            db.Snapshot() == s.tables && r == s.reply
  {
    var artifact := Artifact(artifactId, storyId, artifactType, Draft, 1, now, now, None, None);
    if storyId !in db.stories {
      return Threw("Story not found");
    }
    var story := db.stories[storyId];
    var generated := gen(artifactType, story.content, None);
    if generated.GenerationFailed? {
      return Threw(generated.message);
    }
    var version := ArtifactVersion(versionId, artifactId, 1, generated.content, None, now, AiGenerated);
    db.artifacts := db.artifacts[artifactId := artifact];
    db.versions := db.versions[artifactId := map[1 := version]];
    return Returned(ViewOf(artifact, version));
  }

  /** The shared end of `addFeedback` and `updateContent`, on the database. */
  method Commit(db: Db, artifactId: Id, candidate: string, feedback: Option<string>,
                generationType: GenerationType, versionId: Id, now: Timestamp) returns (r: Outcome<Iteration>)
    requires artifactId in db.artifacts
    requires db.artifacts[artifactId].currentVersion in RowsOf(db.Snapshot(), artifactId)
    modifies db
    ensures var s := Revise(old(db.Snapshot()), artifactId, candidate, feedback, generationType, versionId, now);
            db.Snapshot() == s.tables && r == s.reply
  {
    var artifact := db.artifacts[artifactId];
    var rows := ReadRows(db, artifactId);
    var current := rows[artifact.currentVersion];
    if AreContentsEqual(candidate, current.content) {
      var touched := artifact.(updatedAt := now);
      db.artifacts := db.artifacts[artifactId := touched];
      return Returned(Iteration(ViewOf(touched, current), false));
    }
    var maxVersion := MaxVersion(rows);
    var newVersion := maxVersion + 1;
    var row := ArtifactVersion(versionId, artifactId, newVersion, candidate, feedback, now, generationType);
    db.versions := db.versions[artifactId := rows[newVersion := row]];
    var updated := artifact.(currentVersion := newVersion, updatedAt := now);
    db.artifacts := db.artifacts[artifactId := updated];
    return Returned(Iteration(ViewOf(updated, row), true));
  }

  method AddFeedback(db: Db, artifactId: Id, feedback: string, versionId: Id, now: Timestamp,
                     gen: Generator) returns (r: Outcome<Iteration>)
    modifies db
    ensures var s := AddFeedbackSpec(old(db.Snapshot()), artifactId, feedback, versionId, now, gen);
            db.Snapshot() == s.tables && r == s.reply
  {
    if artifactId !in db.artifacts {
      return ReturnedNull;
    }
    var artifact := db.artifacts[artifactId];
    if artifact.state != Draft {
      return Threw("Cannot add feedback to finalized artifact");
    }
    var rows := ReadRows(db, artifactId);
    if artifact.currentVersion !in rows {
      return Threw("Current version not found");
    }
    if artifact.storyId !in db.stories {
      return Threw("Story not found");
    }
    var story := db.stories[artifact.storyId];
    var generated := gen(artifact.artifactType, story.content, Some(feedback));
    if generated.GenerationFailed? {
      return Threw(generated.message);
    }
    r := Commit(db, artifactId, generated.content, Some(feedback), AiGenerated, versionId, now);
  }

  method UpdateContent(db: Db, artifactId: Id, content: string, versionId: Id, now: Timestamp)
    returns (r: Outcome<Iteration>)
    modifies db
    ensures var s := UpdateContentSpec(old(db.Snapshot()), artifactId, content, versionId, now);
            db.Snapshot() == s.tables && r == s.reply
  {
    if artifactId !in db.artifacts {
      return ReturnedNull;
    }
    var artifact := db.artifacts[artifactId];
    if artifact.state != Draft {
      return Threw("Cannot edit finalized artifact");
    }
    var rows := ReadRows(db, artifactId);
    if artifact.currentVersion !in rows {
      return Threw("Current version not found");
    }
    r := Commit(db, artifactId, content, None, UserEdited, versionId, now);
  }

  method Finalize(db: Db, artifactId: Id, now: Timestamp) returns (r: Outcome<ArtifactWithVersion>)
    modifies db
    ensures var s := FinalizeSpec(old(db.Snapshot()), artifactId, now);
            db.Snapshot() == s.tables && r == s.reply
  {
    if artifactId !in db.artifacts {
      return ReturnedNull;
    }
    var artifact := db.artifacts[artifactId];
    if artifact.state != Draft {
      return Threw("Artifact is already finalized");
    }
    var rows := ReadRows(db, artifactId);
    if artifact.currentVersion !in rows {
      return Threw("Current version not found");
    }
    var current := rows[artifact.currentVersion];
    if Trim(current.content) == [] {
      return Threw("Cannot finalize artifact with empty content");
    }
    var finalized := artifact.(state := Final, finalizedAt := Some(now), updatedAt := now);
    db.artifacts := db.artifacts[artifactId := finalized];
    return Returned(ViewOf(finalized, current));
  }

  method Duplicate(db: Db, sourceId: Id, newId: Id, versionId: Id, now: Timestamp)
    returns (r: Outcome<ArtifactWithVersion>)
    modifies db
    ensures var s := DuplicateSpec(old(db.Snapshot()), sourceId, newId, versionId, now);
            db.Snapshot() == s.tables && r == s.reply
  {
    if sourceId !in db.artifacts {
      return ReturnedNull;
    }
    var source := db.artifacts[sourceId];
    if source.state != Final {
      return Threw("Can only duplicate finalized artifacts");
    }
    var rows := ReadRows(db, sourceId);
    if source.currentVersion !in rows {
      return Threw("Final version not found");
    }
    var finalVersion := rows[source.currentVersion];
    var artifact := Artifact(newId, source.storyId, source.artifactType, Draft, 1, now, now, None, Some(sourceId));
    var version := ArtifactVersion(versionId, newId, 1, finalVersion.content, None, now, AiGenerated);
    db.artifacts := db.artifacts[newId := artifact];
    db.versions := db.versions[newId := map[1 := version]];
    return Returned(ViewOf(artifact, version));
  }

  method RestoreVersion(db: Db, artifactId: Id, targetVersion: int, now: Timestamp)
    returns (r: Outcome<ArtifactWithVersion>)
    modifies db
    ensures var s := RestoreVersionSpec(old(db.Snapshot()), artifactId, targetVersion, now);
            db.Snapshot() == s.tables && r == s.reply
  {
    if artifactId !in db.artifacts {
      return ReturnedNull;
    }
    var artifact := db.artifacts[artifactId];
    if artifact.state != Draft {
      return Threw("Cannot restore versions in finalized artifact");
    }
    var rows := ReadRows(db, artifactId);
    if targetVersion !in rows {
      return Threw("Target version not found");
    }
    var target := rows[targetVersion];
    if artifact.currentVersion == targetVersion {
      return Returned(ViewOf(artifact, target));
    }
    var restored := artifact.(currentVersion := targetVersion, updatedAt := now);
    db.artifacts := db.artifacts[artifactId := restored];
    return Returned(ViewOf(restored, target));
  }

  method Delete(db: Db, artifactId: Id) returns (r: Outcome<bool>)
    modifies db
    ensures var s := DeleteSpec(old(db.Snapshot()), artifactId);
            db.Snapshot() == s.tables && r == s.reply
  {
    if artifactId !in db.artifacts {
      return Returned(false);
    }
    if db.artifacts[artifactId].state != Draft {
      return Threw("Cannot delete finalized artifact");
    }
    db.artifacts := ClearSource(db.artifacts - {artifactId}, artifactId);
    db.versions := db.versions - {artifactId};
    return Returned(true);
  }

  method DeleteVersion(db: Db, artifactId: Id, version: int, now: Timestamp)
    returns (r: Outcome<ArtifactWithVersion>)
    modifies db
    ensures var s := DeleteVersionSpec(old(db.Snapshot()), artifactId, version, now);
            db.Snapshot() == s.tables && r == s.reply
  {
    if artifactId !in db.artifacts {
      return ReturnedNull;
    }
    var artifact := db.artifacts[artifactId];
    if artifact.state != Draft {
      return Threw("Cannot remove versions from finalized artifact");
    }
    var allVersions := ReadRows(db, artifactId);
    if |allVersions| == 0 {
      return Threw("No versions found for artifact");
    }
    if |allVersions| == 1 {
      return Threw("Cannot remove the last remaining version");
    }
    if version !in allVersions {
      return Threw("Version not found");
    }
    var remaining := allVersions - {version};
    assert remaining.Keys == allVersions.Keys - {version};
    assert |remaining| == |allVersions| - 1;
    var newCurrentVersion := artifact.currentVersion;
    if version == artifact.currentVersion {
      newCurrentVersion := MaxVersion(remaining);
    }
    db.versions := db.versions[artifactId := remaining];
    var updated := artifact.(currentVersion := newCurrentVersion, updatedAt := now);
    db.artifacts := db.artifacts[artifactId := updated];
    if newCurrentVersion !in remaining {
      return Threw("Failed to find new current version after removal");
    }
    return Returned(ViewOf(updated, remaining[newCurrentVersion]));
  }
}
