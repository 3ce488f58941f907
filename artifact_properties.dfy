/**
  Properties of the artifact engine of src/services/artifact.service.ts,
  proved about the specification functions of ArtifactService.
*/
module ArtifactProperties {
  import opened Wrappers
  import opened Text
  import opened ArtifactModel
  import opened Store
  import opened ArtifactService

  // ---------------------------------------------------------------------
  // The invariant is kept by every operation
  // ---------------------------------------------------------------------

  /** The conditions under which a new record and rows for `id` fit the rest of the database. */
  ghost predicate FitsAsReplacement(t: Tables, id: Id, a: Artifact, rows: map<int, ArtifactVersion>)
    requires id in t.artifacts
  {
    && a.id == id && a.storyId in t.stories && a.currentVersion in rows
    && (forall n :: n in rows ==> n >= 1 && rows[n].version == n && rows[n].artifactId == id)
    && (a.finalizedAt.Some? <==> a.state == Final)
    && a.sourceArtifactId == t.artifacts[id].sourceArtifactId
    && (t.artifacts[id].state == Final ==> a.state == Final)
  }

  lemma {:induction false} ReplaceKeepsOthers(t: Tables, id: Id, a: Artifact, rows: map<int, ArtifactVersion>, x: Id)
    requires WellFormed(t) && id in t.artifacts && FitsAsReplacement(t, id, a, rows)
    requires x in t.artifacts && x != id
    ensures var t' := t.(artifacts := t.artifacts[id := a], versions := t.versions[id := rows]);
            x in t'.versions && ArtifactWellFormed(t', x)
  {
    assert ArtifactWellFormed(t, x);
  }

  lemma {:induction false} ReplaceKeepsItself(t: Tables, id: Id, a: Artifact, rows: map<int, ArtifactVersion>)
    requires WellFormed(t) && id in t.artifacts && FitsAsReplacement(t, id, a, rows)
    ensures var t' := t.(artifacts := t.artifacts[id := a], versions := t.versions[id := rows]);
            id in t'.versions && ArtifactWellFormed(t', id)
  {
    assert ArtifactWellFormed(t, id);
  }

  /** Replacing one artifact's record and rows by consistent ones keeps the invariant. */
  lemma {:induction false} ReplacePreservesInvariant(t: Tables, id: Id, a: Artifact, rows: map<int, ArtifactVersion>)
    requires WellFormed(t) && id in t.artifacts
    requires FitsAsReplacement(t, id, a, rows)
    ensures WellFormed(t.(artifacts := t.artifacts[id := a], versions := t.versions[id := rows]))
  {
    var t' := t.(artifacts := t.artifacts[id := a], versions := t.versions[id := rows]);
    forall x | x in t'.artifacts ensures x in t'.versions && ArtifactWellFormed(t', x) {
      if x != id {
        ReplaceKeepsOthers(t, id, a, rows, x);
      } else {
        ReplaceKeepsItself(t, id, a, rows);
      }
    }
  }

  /** Adding a new artifact with consistent rows keeps the invariant. */
  lemma {:induction false} InsertPreservesInvariant(t: Tables, id: Id, a: Artifact, rows: map<int, ArtifactVersion>)
    requires WellFormed(t) && id !in t.artifacts
    requires a.id == id && a.storyId in t.stories && a.currentVersion in rows
    requires forall n :: n in rows ==> n >= 1 && rows[n].version == n && rows[n].artifactId == id
    requires a.finalizedAt.Some? <==> a.state == Final
    requires a.sourceArtifactId.Some? ==>
               a.sourceArtifactId.value in t.artifacts && t.artifacts[a.sourceArtifactId.value].state == Final
    ensures WellFormed(t.(artifacts := t.artifacts[id := a], versions := t.versions[id := rows]))
  {
    var t' := t.(artifacts := t.artifacts[id := a], versions := t.versions[id := rows]);
    forall x | x in t'.artifacts ensures x in t'.versions && ArtifactWellFormed(t', x) {
      if x != id {
        assert ArtifactWellFormed(t, x);
      }
    }
  }

  lemma {:induction false} CreatePreservesInvariant(t: Tables, storyId: Id, artifactType: ArtifactType, artifactId: Id,
                                                    versionId: Id, now: Timestamp, gen: Generator)
    requires WellFormed(t) && artifactId !in t.artifacts
    ensures WellFormed(CreateSpec(t, storyId, artifactType, artifactId, versionId, now, gen).tables)
  {
    if storyId in t.stories && gen(artifactType, t.stories[storyId].content, None).Generated? {
      var content := gen(artifactType, t.stories[storyId].content, None).content;
      var a := Artifact(artifactId, storyId, artifactType, Draft, 1, now, now, None, None);
      var v := ArtifactVersion(versionId, artifactId, 1, content, None, now, AiGenerated);
      InsertPreservesInvariant(t, artifactId, a, map[1 := v]);
    }
  }

  lemma {:induction false} RevisePreservesInvariant(t: Tables, artifactId: Id, candidate: string, feedback: Option<string>,
                                                    generationType: GenerationType, versionId: Id, now: Timestamp)
    requires WellFormed(t) && artifactId in t.artifacts && t.artifacts[artifactId].state == Draft
    ensures t.artifacts[artifactId].currentVersion in RowsOf(t, artifactId)
    ensures WellFormed(Revise(t, artifactId, candidate, feedback, generationType, versionId, now).tables)
  {
    assert ArtifactWellFormed(t, artifactId);
    var a, rows := t.artifacts[artifactId], RowsOf(t, artifactId);
    if AreContentsEqual(candidate, rows[a.currentVersion].content) {
      assert t.versions[artifactId := rows] == t.versions;
      ReplacePreservesInvariant(t, artifactId, a.(updatedAt := now), rows);
    } else {
      var n := MaxOf(rows.Keys) + 1;
      var v := ArtifactVersion(versionId, artifactId, n, candidate, feedback, now, generationType);
      ReplacePreservesInvariant(t, artifactId, a.(currentVersion := n, updatedAt := now), rows[n := v]);
    }
  }

  lemma {:induction false} AddFeedbackPreservesInvariant(t: Tables, artifactId: Id, feedback: string, versionId: Id,
                                                         now: Timestamp, gen: Generator)
    requires WellFormed(t)
    ensures WellFormed(AddFeedbackSpec(t, artifactId, feedback, versionId, now, gen).tables)
  {
    if artifactId in t.artifacts && t.artifacts[artifactId].state == Draft {
      var a := t.artifacts[artifactId];
      RevisePreservesInvariant(t, artifactId, [], None, AiGenerated, versionId, now);
      if a.storyId in t.stories {
        var g := gen(a.artifactType, t.stories[a.storyId].content, Some(feedback));
        if g.Generated? {
          RevisePreservesInvariant(t, artifactId, g.content, Some(feedback), AiGenerated, versionId, now);
        }
      }
    }
  }

  lemma {:induction false} UpdateContentPreservesInvariant(t: Tables, artifactId: Id, content: string, versionId: Id,
                                                           now: Timestamp)
    requires WellFormed(t)
    ensures WellFormed(UpdateContentSpec(t, artifactId, content, versionId, now).tables)
  {
    if artifactId in t.artifacts && t.artifacts[artifactId].state == Draft {
      RevisePreservesInvariant(t, artifactId, content, None, UserEdited, versionId, now);
    }
  }

  lemma {:induction false} FinalizePreservesInvariant(t: Tables, artifactId: Id, now: Timestamp)
    requires WellFormed(t)
    ensures WellFormed(FinalizeSpec(t, artifactId, now).tables)
  {
    if artifactId in t.artifacts && t.artifacts[artifactId].state == Draft {
      assert ArtifactWellFormed(t, artifactId);
      var a, rows := t.artifacts[artifactId], RowsOf(t, artifactId);
      if Trim(rows[a.currentVersion].content) != [] {
        assert t.versions[artifactId := rows] == t.versions;
        ReplacePreservesInvariant(t, artifactId, a.(state := Final, finalizedAt := Some(now), updatedAt := now), rows);
      }
    }
  }

  lemma {:induction false} DuplicatePreservesInvariant(t: Tables, sourceId: Id, newId: Id, versionId: Id, now: Timestamp)
    requires WellFormed(t) && newId !in t.artifacts
    ensures WellFormed(DuplicateSpec(t, sourceId, newId, versionId, now).tables)
  {
    if sourceId in t.artifacts && t.artifacts[sourceId].state == Final {
      assert ArtifactWellFormed(t, sourceId);
      var src, rows := t.artifacts[sourceId], RowsOf(t, sourceId);
      var a := Artifact(newId, src.storyId, src.artifactType, Draft, 1, now, now, None, Some(sourceId));
      var v := ArtifactVersion(versionId, newId, 1, rows[src.currentVersion].content, None, now, AiGenerated);
      InsertPreservesInvariant(t, newId, a, map[1 := v]);
    }
  }

  lemma {:induction false} RestoreVersionPreservesInvariant(t: Tables, artifactId: Id, targetVersion: int, now: Timestamp)
    requires WellFormed(t)
    ensures WellFormed(RestoreVersionSpec(t, artifactId, targetVersion, now).tables)
  {
    if artifactId in t.artifacts && t.artifacts[artifactId].state == Draft {
      assert ArtifactWellFormed(t, artifactId);
      var a, rows := t.artifacts[artifactId], RowsOf(t, artifactId);
      if targetVersion in rows && targetVersion != a.currentVersion {
        assert t.versions[artifactId := rows] == t.versions;
        ReplacePreservesInvariant(t, artifactId, a.(currentVersion := targetVersion, updatedAt := now), rows);
      }
    }
  }

  lemma {:induction false} DeleteVersionPreservesInvariant(t: Tables, artifactId: Id, version: int, now: Timestamp)
    requires WellFormed(t)
    ensures WellFormed(DeleteVersionSpec(t, artifactId, version, now).tables)
  {
    if artifactId in t.artifacts && t.artifacts[artifactId].state == Draft {
      assert ArtifactWellFormed(t, artifactId);
      var a, rows := t.artifacts[artifactId], RowsOf(t, artifactId);
      if |rows| > 1 && version in rows {
        assert |rows.Keys - {version}| == |rows| - 1;
        var newCurrent := CurrentAfterRemoval(a, rows, version);
        ReplacePreservesInvariant(t, artifactId, a.(currentVersion := newCurrent, updatedAt := now), rows - {version});
      }
    }
  }

  /** No artifact names a draft as its source. */
  lemma {:induction false} DraftIsNobodysSource(t: Tables, id: Id)
    requires WellFormed(t) && id in t.artifacts && t.artifacts[id].state == Draft
    ensures forall x :: x in t.artifacts ==> t.artifacts[x].sourceArtifactId != Some(id)
  {
    forall x | x in t.artifacts ensures t.artifacts[x].sourceArtifactId != Some(id) {
      assert ArtifactWellFormed(t, x);
    }
  }

  /**
    Deleting a draft removes exactly its record and its rows: since only final
    artifacts are ever a duplicate's source, the `SET NULL` of the lineage
    column changes nothing.
  */
  lemma {:induction false} DeleteRemovesOnlyTheDraft(t: Tables, artifactId: Id)
    requires WellFormed(t)
    ensures var s := DeleteSpec(t, artifactId);
            && (s.reply == Returned(true) <==> artifactId in t.artifacts && t.artifacts[artifactId].state == Draft)
            && (s.reply == Returned(false) <==> artifactId !in t.artifacts)
            && (s.reply.Threw? <==> artifactId in t.artifacts && t.artifacts[artifactId].state == Final)
            && (s.reply.Threw? ==> s == Step(t, Threw("Cannot delete finalized artifact")))
            && (s.reply == Returned(true) ==>
                  s.tables == Tables(t.stories, t.artifacts - {artifactId}, t.versions - {artifactId}))
    ensures WellFormed(DeleteSpec(t, artifactId).tables)
  {
    if artifactId in t.artifacts && t.artifacts[artifactId].state == Draft {
      DraftIsNobodysSource(t, artifactId);
      var rest := t.artifacts - {artifactId};
      assert ClearSource(rest, artifactId) == rest;
      var t' := Tables(t.stories, rest, t.versions - {artifactId});
      forall x | x in t'.artifacts ensures x in t'.versions && ArtifactWellFormed(t', x) {
        assert ArtifactWellFormed(t, x);
      }
    }
  }

  // ---------------------------------------------------------------------
  // Creation and duplication
  // ---------------------------------------------------------------------

  /** `create` throws when the story is missing; otherwise it adds a draft whose only version is number 1. */
  lemma {:induction false} CreateOutcome(t: Tables, storyId: Id, artifactType: ArtifactType, artifactId: Id,
                                         versionId: Id, now: Timestamp, gen: Generator)
    requires artifactId !in t.artifacts
    ensures var s := CreateSpec(t, storyId, artifactType, artifactId, versionId, now, gen);
            && (storyId !in t.stories ==> s == Step(t, Threw("Story not found")))
            && (s.reply.Returned? <==>
                  storyId in t.stories && gen(artifactType, t.stories[storyId].content, None).Generated?)
            && (s.reply.Threw? ==> s.tables == t)
            && (s.reply.Returned? ==>
                  var a, rows := s.tables.artifacts[artifactId], s.tables.versions[artifactId];
                  && a.state == Draft && a.currentVersion == 1 && a.storyId == storyId
                  && a.artifactType == artifactType
                  && a.finalizedAt.None? && a.sourceArtifactId.None? && a.createdAt == a.updatedAt == now
                  && rows.Keys == {1}
                  && rows[1].content == gen(artifactType, t.stories[storyId].content, None).content
                  && rows[1].userFeedback.None? && rows[1].generationType == AiGenerated
                  && s.reply.value == ViewOf(a, rows[1])
                  && s.tables == t.(artifacts := t.artifacts[artifactId := a], versions := t.versions[artifactId := rows])
                  && (forall x :: x in t.artifacts ==> x in s.tables.artifacts && s.tables.artifacts[x] == t.artifacts[x])
                  && (forall x :: x in t.versions && x != artifactId ==> x in s.tables.versions && s.tables.versions[x] == t.versions[x]))
  {
  }

  /**
    `duplicate` copies only a final artifact. The copy is a new draft at version 1
    holding the source's current content verbatim, and the source is untouched.
  */
  lemma {:induction false} DuplicateOutcome(t: Tables, sourceId: Id, newId: Id, versionId: Id, now: Timestamp)
    requires WellFormed(t) && newId !in t.artifacts
    ensures var s := DuplicateSpec(t, sourceId, newId, versionId, now);
            && (s.reply == ReturnedNull <==> sourceId !in t.artifacts)
            && (sourceId in t.artifacts && t.artifacts[sourceId].state == Draft ==>
                  s == Step(t, Threw("Can only duplicate finalized artifacts")))
            && (sourceId in t.artifacts && t.artifacts[sourceId].state == Final ==>
                  var src := t.artifacts[sourceId];
                  var copy, rows := s.tables.artifacts[newId], s.tables.versions[newId];
                  && s.reply.Returned?
                  && copy == Artifact(newId, src.storyId, src.artifactType, Draft, 1, now, now, None, Some(sourceId))
                  && rows == map[1 := ArtifactVersion(versionId, newId, 1, t.versions[sourceId][src.currentVersion].content,
                                                      None, now, AiGenerated)]
                  && s.reply.value == ViewOf(copy, rows[1])
                  && copy.state == Draft && copy.currentVersion == 1 && copy.sourceArtifactId == Some(sourceId)
                  && copy.storyId == src.storyId && copy.artifactType == src.artifactType
                  && copy.finalizedAt.None?
                  && rows.Keys == {1} && rows[1].content == t.versions[sourceId][src.currentVersion].content
                  && rows[1].userFeedback.None? && rows[1].generationType == AiGenerated
                  && s.tables.artifacts[sourceId] == src && s.tables.versions[sourceId] == t.versions[sourceId]
                  && s.tables == t.(artifacts := t.artifacts[newId := copy], versions := t.versions[newId := rows])
                  && (forall x :: x in t.artifacts ==> x in s.tables.artifacts && s.tables.artifacts[x] == t.artifacts[x])
                  && (forall x :: x in t.versions ==> x in s.tables.versions && s.tables.versions[x] == t.versions[x]))
  {
    if sourceId in t.artifacts {
      assert ArtifactWellFormed(t, sourceId);
    }
  }

  // ---------------------------------------------------------------------
  // Feedback and manual edits: deduplication and numbering
  // ---------------------------------------------------------------------

  /**
    `addFeedback` and `updateContent` return null for a missing artifact and
    throw for a final one, changing nothing in either case.
  */
  lemma {:induction false} RevisionNeedsExistingDraft(t: Tables, artifactId: Id, text: string, versionId: Id,
                                                      now: Timestamp, gen: Generator)
    ensures var f := AddFeedbackSpec(t, artifactId, text, versionId, now, gen);
            var u := UpdateContentSpec(t, artifactId, text, versionId, now);
            && (f.reply == ReturnedNull <==> artifactId !in t.artifacts)
            && (u.reply == ReturnedNull <==> artifactId !in t.artifacts)
            && (artifactId !in t.artifacts ==> f.tables == t && u.tables == t)
            && (artifactId in t.artifacts && t.artifacts[artifactId].state == Final ==>
                  && f == Step(t, Threw("Cannot add feedback to finalized artifact"))
                  && u == Step(t, Threw("Cannot edit finalized artifact")))
  {
  }

  /**
    The deduplication rule: a candidate equal to the current content up to
    whitespace adds no row, keeps the current version, only moves `updatedAt`, and
    replies with the current version and `newVersionCreated = false`.
  */
  lemma {:induction false} EqualContentAddsNoVersion(t: Tables, artifactId: Id, candidate: string,
                                                     feedback: Option<string>, generationType: GenerationType,
                                                     versionId: Id, now: Timestamp)
    requires artifactId in t.artifacts && t.artifacts[artifactId].currentVersion in RowsOf(t, artifactId)
    requires AreContentsEqual(candidate, RowsOf(t, artifactId)[t.artifacts[artifactId].currentVersion].content)
    ensures var a := t.artifacts[artifactId];
            var current := RowsOf(t, artifactId)[a.currentVersion];
            var s := Revise(t, artifactId, candidate, feedback, generationType, versionId, now);
            && s.tables.versions == t.versions && s.tables.stories == t.stories
            && s.tables.artifacts == t.artifacts[artifactId := a.(updatedAt := now)]
            && s.reply == Returned(Iteration(ViewOf(a.(updatedAt := now), current), false))
  {
  }

  /**
    A candidate that differs becomes a new row numbered one above the highest
    existing number (not the current one), which no row had, and becomes current;
    nothing else changes but `updatedAt`.
  */
  lemma {:induction false} DifferentContentAddsVersionAboveAll(t: Tables, artifactId: Id, candidate: string,
                                                               feedback: Option<string>, generationType: GenerationType,
                                                               versionId: Id, now: Timestamp)
    requires artifactId in t.artifacts && t.artifacts[artifactId].currentVersion in RowsOf(t, artifactId)
    requires !AreContentsEqual(candidate, RowsOf(t, artifactId)[t.artifacts[artifactId].currentVersion].content)
    ensures var a, rows := t.artifacts[artifactId], RowsOf(t, artifactId);
            var s := Revise(t, artifactId, candidate, feedback, generationType, versionId, now);
            var n := s.tables.artifacts[artifactId].currentVersion;
            && (n - 1) in rows && (forall k :: k in rows ==> k < n) && n !in rows
            && s.tables.versions == t.versions[artifactId := rows[n := ArtifactVersion(versionId, artifactId, n, candidate,
                                                                                     feedback, now, generationType)]]
            && s.tables.artifacts == t.artifacts[artifactId := a.(currentVersion := n, updatedAt := now)]
            && s.tables.stories == t.stories
            && s.reply.Returned? && s.reply.value.newVersionCreated
            && s.reply.value.view.currentVersionContent == candidate
  {
  }

  /**
    Whether `addFeedback` creates a version is decided by content equality alone;
    a new version records the feedback and is marked AI-generated.
  */
  lemma {:induction false} FeedbackVersionRule(t: Tables, artifactId: Id, feedback: string, versionId: Id,
                                               now: Timestamp, gen: Generator)
    requires WellFormed(t) && artifactId in t.artifacts && t.artifacts[artifactId].state == Draft
    ensures var a := t.artifacts[artifactId];
            var current := t.versions[artifactId][a.currentVersion];
            var s := AddFeedbackSpec(t, artifactId, feedback, versionId, now, gen);
            && (a.storyId in t.stories)
            && (gen(a.artifactType, t.stories[a.storyId].content, Some(feedback)).GenerationFailed? ==>
                  s == Step(t, Threw(gen(a.artifactType, t.stories[a.storyId].content, Some(feedback)).message)))
            && (gen(a.artifactType, t.stories[a.storyId].content, Some(feedback)).Generated? ==>
                  var content := gen(a.artifactType, t.stories[a.storyId].content, Some(feedback)).content;
                  && s.reply.Returned?
                  && (s.reply.value.newVersionCreated <==> !AreContentsEqual(content, current.content))
                  && (s.reply.value.newVersionCreated ==>
                        var row := s.tables.versions[artifactId][s.reply.value.view.artifact.currentVersion];
                        row.content == content && row.userFeedback == Some(feedback) && row.generationType == AiGenerated))
  {
    assert ArtifactWellFormed(t, artifactId);
    var a := t.artifacts[artifactId];
    var g := gen(a.artifactType, t.stories[a.storyId].content, Some(feedback));
    if g.Generated? {
      if AreContentsEqual(g.content, t.versions[artifactId][a.currentVersion].content) {
        EqualContentAddsNoVersion(t, artifactId, g.content, Some(feedback), AiGenerated, versionId, now);
      } else {
        DifferentContentAddsVersionAboveAll(t, artifactId, g.content, Some(feedback), AiGenerated, versionId, now);
      }
    }
  }

  /**
    Whether `updateContent` creates a version is decided by content equality alone;
    a new version holds the user's content, has no feedback and is marked user-edited.
  */
  lemma {:induction false} EditVersionRule(t: Tables, artifactId: Id, content: string, versionId: Id, now: Timestamp)
    requires WellFormed(t) && artifactId in t.artifacts && t.artifacts[artifactId].state == Draft
    ensures var a := t.artifacts[artifactId];
            var current := t.versions[artifactId][a.currentVersion];
            var s := UpdateContentSpec(t, artifactId, content, versionId, now);
            && s.reply.Returned?
            && (s.reply.value.newVersionCreated <==> !AreContentsEqual(content, current.content))
            && (!s.reply.value.newVersionCreated ==>
                  s.tables.versions == t.versions && s.reply.value.view.currentVersionContent == current.content)
            && (s.reply.value.newVersionCreated ==>
                  var row := s.tables.versions[artifactId][s.reply.value.view.artifact.currentVersion];
                  row.content == content && row.userFeedback.None? && row.generationType == UserEdited)
  {
    assert ArtifactWellFormed(t, artifactId);
    var a := t.artifacts[artifactId];
    if AreContentsEqual(content, t.versions[artifactId][a.currentVersion].content) {
      EqualContentAddsNoVersion(t, artifactId, content, None, UserEdited, versionId, now);
    } else {
      DifferentContentAddsVersionAboveAll(t, artifactId, content, None, UserEdited, versionId, now);
    }
  }

  // ---------------------------------------------------------------------
  // Finalisation, restoring and removing versions
  // ---------------------------------------------------------------------

  /**
    `finalize` refuses exactly the drafts whose current content is only
    whitespace; otherwise the artifact becomes final, stamped with the
    finalisation time, and no version changes.
  */
  lemma {:induction false} FinalizeOutcome(t: Tables, artifactId: Id, now: Timestamp)
    requires WellFormed(t)
    ensures var s := FinalizeSpec(t, artifactId, now);
            && (s.reply == ReturnedNull <==> artifactId !in t.artifacts)
            && (artifactId in t.artifacts && t.artifacts[artifactId].state == Final ==>
                  s == Step(t, Threw("Artifact is already finalized")))
            && (artifactId in t.artifacts && t.artifacts[artifactId].state == Draft ==>
                  var a := t.artifacts[artifactId];
                  var current := t.versions[artifactId][a.currentVersion];
                  && (s.reply.Threw? <==> AllSpaces(current.content))
                  && (s.reply.Threw? ==> s == Step(t, Threw("Cannot finalize artifact with empty content")))
                  && (s.reply.Returned? ==>
                        && s.tables.artifacts == t.artifacts[artifactId := a.(state := Final, finalizedAt := Some(now), updatedAt := now)]
                        && s.tables.versions == t.versions && s.tables.stories == t.stories
                        && s.reply == Returned(ViewOf(a.(state := Final, finalizedAt := Some(now), updatedAt := now), current))
                        && s.reply.value.currentVersionContent == current.content))
  {
    if artifactId in t.artifacts {
      assert ArtifactWellFormed(t, artifactId);
    }
  }

  /**
    `restoreVersion` only makes an existing row of a draft the current version: it
    never adds or removes a version, and restoring the current version
    changes nothing at all.
  */
  lemma {:induction false} RestoreOnlyChangesCurrent(t: Tables, artifactId: Id, targetVersion: int, now: Timestamp)
    ensures var s := RestoreVersionSpec(t, artifactId, targetVersion, now);
            && s.tables.versions == t.versions && s.tables.stories == t.stories
            && (s.reply == ReturnedNull <==> artifactId !in t.artifacts)
            && (s.reply.Returned? <==>
                  artifactId in t.artifacts && t.artifacts[artifactId].state == Draft
                  && targetVersion in RowsOf(t, artifactId))
            && (s.reply.Returned? ==>
                  var a := t.artifacts[artifactId];
                  && s.reply.value.artifact.currentVersion == targetVersion
                  && s.reply.value.currentVersionContent == RowsOf(t, artifactId)[targetVersion].content
                  && (a.currentVersion == targetVersion ==> s.tables == t)
                  && (a.currentVersion != targetVersion ==>
                        s.tables.artifacts == t.artifacts[artifactId := a.(currentVersion := targetVersion, updatedAt := now)]))
            && (!s.reply.Returned? ==> s.tables == t)
  {
  }

  /**
    `deleteVersion` returns null for a missing artifact and refuses a final
    one, changing nothing; for a draft it checks that two rows remain before
    checking that the requested one exists, removes exactly that row, and, only when the
    current version was removed, makes the highest remaining number current.
  */
  lemma {:induction false} DeleteVersionOutcome(t: Tables, artifactId: Id, version: int, now: Timestamp)
    requires WellFormed(t)
    ensures artifactId !in t.artifacts ==> DeleteVersionSpec(t, artifactId, version, now) == Step(t, ReturnedNull)
    ensures artifactId in t.artifacts && t.artifacts[artifactId].state == Final ==>
              DeleteVersionSpec(t, artifactId, version, now) == Step(t, Threw("Cannot remove versions from finalized artifact"))
    ensures artifactId in t.artifacts && t.artifacts[artifactId].state == Draft ==>
            var a, rows := t.artifacts[artifactId], t.versions[artifactId];
            var s := DeleteVersionSpec(t, artifactId, version, now);
            && (|rows| == 1 ==> s == Step(t, Threw("Cannot remove the last remaining version")))
            && (|rows| > 1 && version !in rows ==> s == Step(t, Threw("Version not found")))
            && (|rows| > 1 && version in rows ==>
                  var a' := s.tables.artifacts[artifactId];
                  && s.reply.Returned?
                  && s.tables.versions == t.versions[artifactId := rows - {version}]
                  && s.tables.stories == t.stories
                  && s.tables.artifacts == t.artifacts[artifactId := a']
                  && a' == a.(currentVersion := a'.currentVersion, updatedAt := now)
                  && (version != a.currentVersion ==> a'.currentVersion == a.currentVersion)
                  && (version == a.currentVersion ==> IsMax(a'.currentVersion, rows.Keys - {version}))
                  && s.reply.value.currentVersionContent == rows[a'.currentVersion].content)
  {
    if artifactId in t.artifacts && t.artifacts[artifactId].state == Draft {
      assert ArtifactWellFormed(t, artifactId);
      var rows := t.versions[artifactId];
      assert |rows| != 0 by {
        assert t.artifacts[artifactId].currentVersion in rows;
      }
    }
  }

  /**
    A final artifact is frozen: every mutator of the engine refuses it with
    its own message and leaves the database as it was.
  */
  lemma {:induction false} FinalArtifactIsFrozen(t: Tables, artifactId: Id, text: string, version: int,
                                                 versionId: Id, now: Timestamp, gen: Generator)
    requires artifactId in t.artifacts && t.artifacts[artifactId].state == Final
    ensures AddFeedbackSpec(t, artifactId, text, versionId, now, gen) == Step(t, Threw("Cannot add feedback to finalized artifact"))
    ensures UpdateContentSpec(t, artifactId, text, versionId, now) == Step(t, Threw("Cannot edit finalized artifact"))
    ensures FinalizeSpec(t, artifactId, now) == Step(t, Threw("Artifact is already finalized"))
    ensures RestoreVersionSpec(t, artifactId, version, now) == Step(t, Threw("Cannot restore versions in finalized artifact"))
    ensures DeleteVersionSpec(t, artifactId, version, now) == Step(t, Threw("Cannot remove versions from finalized artifact"))
    ensures DeleteSpec(t, artifactId) == Step(t, Threw("Cannot delete finalized artifact"))
  {
  }

  // ---------------------------------------------------------------------
  // Reads
  // ---------------------------------------------------------------------

  /**
    Under the invariant `getById` finds every artifact, always with the
    content of its current version, and every reply satisfies the
    response schemas; `getVersion` finds exactly the numbers that have a row.
  */
  lemma {:induction false} GettersUnderInvariant(t: Tables, artifactId: Id, version: int)
    requires WellFormed(t)
    ensures GetById(t, artifactId).Some? <==> artifactId in t.artifacts
    ensures GetById(t, artifactId).Some? ==>
              var w := GetById(t, artifactId).value;
              && w.artifact == t.artifacts[artifactId]
              && w.currentVersionContent == t.versions[artifactId][w.artifact.currentVersion].content
              && IsArtifactWithVersionResponse(w)
    ensures GetVersion(t, artifactId, version).Some? <==> artifactId in t.versions && version in t.versions[artifactId]
    ensures GetVersion(t, artifactId, version).Some? ==>
              GetVersion(t, artifactId, version).value.version == version && IsVersionResponse(GetVersion(t, artifactId, version).value)
  {
    if artifactId in t.artifacts {
      assert ArtifactWellFormed(t, artifactId);
    }
  }

  /** `getAllVersions` lists every row of the artifact once, highest number first. */
  lemma {:induction false} AllVersionsNewestFirst(t: Tables, artifactId: Id)
    requires WellFormed(t)
    ensures var vs := GetAllVersions(t, artifactId);
            && |vs| == |RowsOf(t, artifactId)|
            && (forall i :: 0 <= i < |vs| ==> vs[i].version in RowsOf(t, artifactId)
                                              && RowsOf(t, artifactId)[vs[i].version] == vs[i])
            && (forall i, j :: 0 <= i < j < |vs| ==> vs[i].version > vs[j].version)
  {
    var rows := RowsOf(t, artifactId);
    var order := SortedDescending(rows.Keys);
    var vs := GetAllVersions(t, artifactId);
    if artifactId in t.artifacts {
      assert ArtifactWellFormed(t, artifactId);
    }
    assert |rows.Keys| == |rows|;
    forall i | 0 <= i < |vs| ensures vs[i].version == order[i] {
      assert vs[i] == rows[order[i]];
    }
  }

  /**
    Under the invariant the join drops nothing: the listing of a story holds
    each of its artifacts exactly once, as stored, with the snippet of its
    current version's content.
  */
  lemma {:induction false} StoryListingUnderInvariant(t: Tables, storyId: Id)
    requires WellFormed(t)
    ensures JoinedIds(t, storyId) == StoryArtifactIds(t, storyId)
    ensures var items := GetByStoryId(t, storyId);
            && |items| == |StoryArtifactIds(t, storyId)|
            && (forall i :: 0 <= i < |items| ==>
                  var id := items[i].artifact.id;
                  && id in StoryArtifactIds(t, storyId) && items[i].artifact == t.artifacts[id]
                  && items[i].contentSnippet == Snippet(items[i].artifact, RowsOf(t, id)[items[i].artifact.currentVersion].content))
            && (forall id :: id in StoryArtifactIds(t, storyId) ==> exists i :: 0 <= i < |items| && items[i].artifact.id == id)
            && (forall i, j :: 0 <= i < j < |items| ==> items[i].artifact.id != items[j].artifact.id)
  {
    var all := StoryArtifactIds(t, storyId);
    forall id | id in all ensures id in JoinedIds(t, storyId) && t.artifacts[id].id == id {
      assert ArtifactWellFormed(t, id);
    }
    assert JoinedIds(t, storyId) == all;
    var items := GetByStoryId(t, storyId);
    var order :| IsNewestFirst(t.artifacts, all, order) && |order| == |items|
                 && forall i :: 0 <= i < |items| ==> items[i] == ListItemOf(t, order[i]);
    ListedById(t, all, order, items);
  }

  /** A listing of artifacts that carry their own ids lists each id once, by that id. */
  lemma {:induction false} ListedById(t: Tables, ids: set<Id>, order: seq<Id>, items: seq<ArtifactListItem>)
    requires forall id :: id in ids ==>
               id in t.artifacts && t.artifacts[id].id == id && t.artifacts[id].currentVersion in RowsOf(t, id)
    requires IsNewestFirst(t.artifacts, ids, order) && |order| == |items|
    requires forall i :: 0 <= i < |items| ==> items[i] == ListItemOf(t, order[i])
    ensures forall i :: 0 <= i < |items| ==>
              var id := items[i].artifact.id;
              && id in ids && items[i].artifact == t.artifacts[id]
              && items[i].contentSnippet == Snippet(items[i].artifact, RowsOf(t, id)[items[i].artifact.currentVersion].content)
    ensures forall id :: id in ids ==> exists i :: 0 <= i < |items| && items[i].artifact.id == id
    ensures forall i, j :: 0 <= i < j < |items| ==> items[i].artifact.id != items[j].artifact.id
  {
    assert forall i :: 0 <= i < |items| ==> items[i].artifact.id == order[i];
    forall id | id in ids ensures exists i :: 0 <= i < |items| && items[i].artifact.id == id {
      var i :| 0 <= i < |order| && order[i] == id;
      assert items[i].artifact.id == id;
    }
  }

  // ---------------------------------------------------------------------
  // Scenarios
  // ---------------------------------------------------------------------

  /**
    Numbering continues past the highest version, not past the restored one:
    with versions 1, 2 and 3, restoring version 1 and then editing it creates
    version 4, and all four rows remain.
  */
  lemma {:induction false} RestoreThenEditCreatesFour(t: Tables, artifactId: Id, content: string, versionId: Id,
                                                      now1: Timestamp, now2: Timestamp)
    requires WellFormed(t) && artifactId in t.artifacts && t.artifacts[artifactId].state == Draft
    requires t.versions[artifactId].Keys == {1, 2, 3}
    requires !AreContentsEqual(content, t.versions[artifactId][1].content)
    ensures var t1 := RestoreVersionSpec(t, artifactId, 1, now1).tables;
            var s := UpdateContentSpec(t1, artifactId, content, versionId, now2);
            && s.reply.Returned? && s.reply.value.newVersionCreated
            && s.reply.value.view.artifact.currentVersion == 4
            && s.tables.versions[artifactId].Keys == {1, 2, 3, 4}
  {
    var t1 := RestoreVersionSpec(t, artifactId, 1, now1).tables;
    assert t1.artifacts[artifactId].currentVersion == 1;
    assert RowsOf(t1, artifactId) == t.versions[artifactId];
    MaxIsUnique(3, {1, 2, 3});
  }

  /**
    Removing the current version 3 of versions 1, 2 and 3 makes version 2
    current, and the next differing edit is numbered 3 again: a removed top
    number is handed out a second time.
  */
  lemma {:induction false} DeletedTopNumberIsReused(t: Tables, artifactId: Id, content: string, versionId: Id,
                                                    now1: Timestamp, now2: Timestamp)
    requires WellFormed(t) && artifactId in t.artifacts && t.artifacts[artifactId].state == Draft
    requires t.versions[artifactId].Keys == {1, 2, 3} && t.artifacts[artifactId].currentVersion == 3
    requires !AreContentsEqual(content, t.versions[artifactId][2].content)
    ensures var s1 := DeleteVersionSpec(t, artifactId, 3, now1);
            var s2 := UpdateContentSpec(s1.tables, artifactId, content, versionId, now2);
            && s1.reply.Returned? && s1.reply.value.artifact.currentVersion == 2
            && s2.reply.Returned? && s2.reply.value.newVersionCreated
            && s2.reply.value.view.artifact.currentVersion == 3
            && s2.tables.versions[artifactId].Keys == {1, 2, 3}
  {
    var rows := t.versions[artifactId];
    assert rows.Keys - {3} == {1, 2};
    assert |rows| == 3 by {
      assert |rows| == |rows.Keys|;
    }
    MaxIsUnique(2, {1, 2});
    var s1 := DeleteVersionSpec(t, artifactId, 3, now1);
    assert s1.tables.artifacts[artifactId].currentVersion == 2;
    assert RowsOf(s1.tables, artifactId).Keys == {1, 2};
  }
}
