/**
  Properties of the earlier artifact service (src/services/artifactService.ts),
  and how it relates to the engine of src/services/artifact.service.ts.
*/
module LegacyProperties {
  import opened Wrappers
  import opened Text
  import opened ArtifactModel
  import opened Store
  import opened ArtifactService
  import opened ArtifactProperties
  import opened LegacyArtifactService

  /** On a legacy database the current version is the highest, so the next number is free. */
  lemma {:induction false} NextNumberIsFree(t: Tables, artifactId: Id)
    requires LegacyWellFormed(t) && artifactId in t.artifacts
    ensures var a := t.artifacts[artifactId];
            a.currentVersion >= 1 && a.currentVersion == MaxOf(t.versions[artifactId].Keys)
            && a.currentVersion + 1 !in t.versions[artifactId]
  {
    assert ArtifactWellFormed(t, artifactId);
    var a := t.artifacts[artifactId];
    MaxIsUnique(a.currentVersion, t.versions[artifactId].Keys);
  }

  /** A change confined to one artifact that leaves it pointing at its highest version keeps every artifact at its highest version. */
  lemma {:induction false} OneArtifactChanged(t: Tables, t': Tables, id: Id)
    requires PointsAtHighest(t)
    requires forall x :: x in t'.artifacts && x in t'.versions && x != id ==>
               x in t.artifacts && x in t.versions
               && t'.artifacts[x].currentVersion == t.artifacts[x].currentVersion && t'.versions[x] == t.versions[x]
    requires id in t'.artifacts && id in t'.versions ==> IsMax(t'.artifacts[id].currentVersion, t'.versions[id].Keys)
    ensures PointsAtHighest(t')
  {
    forall x | x in t'.artifacts && x in t'.versions ensures IsMax(t'.artifacts[x].currentVersion, t'.versions[x].Keys) {
      if x != id {
        assert IsMax(t.artifacts[x].currentVersion, t.versions[x].Keys);
      }
    }
  }

  /** Appending to a draft of a legacy database adds exactly one row, numbered one above the current version. */
  lemma {:induction false} AppendAddsOneVersion(t: Tables, artifactId: Id, candidate: string,
                                                feedback: Option<string>, generationType: GenerationType,
                                                versionId: Id, now: Timestamp)
    requires LegacyWellFormed(t) && artifactId in t.artifacts
    ensures var t' := Append(t, artifactId, candidate, feedback, generationType, versionId, now).tables;
            var n := t.artifacts[artifactId].currentVersion + 1;
            && t'.versions[artifactId].Keys == t.versions[artifactId].Keys + {n}
            && |t'.versions[artifactId]| == |t.versions[artifactId]| + 1
            && t'.versions[artifactId][n].content == candidate
  {
    NextNumberIsFree(t, artifactId);
    var rows := t.versions[artifactId];
    var n := t.artifacts[artifactId].currentVersion + 1;
    var t' := Append(t, artifactId, candidate, feedback, generationType, versionId, now).tables;
    assert t'.versions[artifactId].Keys == rows.Keys + {n};
  }

  /** Appending keeps every artifact pointing at its highest version. */
  lemma {:induction false} AppendPointsAtHighest(t: Tables, artifactId: Id, candidate: string,
                                                 feedback: Option<string>, generationType: GenerationType,
                                                 versionId: Id, now: Timestamp)
    requires PointsAtHighest(t) && artifactId in t.artifacts && artifactId in t.versions
    ensures PointsAtHighest(Append(t, artifactId, candidate, feedback, generationType, versionId, now).tables)
  {
    var t' := Append(t, artifactId, candidate, feedback, generationType, versionId, now).tables;
    var n := t.artifacts[artifactId].currentVersion + 1;
    assert IsMax(n - 1, t.versions[artifactId].Keys);
    assert t'.versions[artifactId].Keys == t.versions[artifactId].Keys + {n};
    OneArtifactChanged(t, t', artifactId);
  }

  /** Appending to a draft of a legacy database keeps the legacy invariant. */
  lemma {:induction false} AppendPreservesLegacyInvariant(t: Tables, artifactId: Id, candidate: string,
                                                          feedback: Option<string>, generationType: GenerationType,
                                                          versionId: Id, now: Timestamp)
    requires LegacyWellFormed(t) && artifactId in t.artifacts && t.artifacts[artifactId].state == Draft
    ensures LegacyWellFormed(Append(t, artifactId, candidate, feedback, generationType, versionId, now).tables)
  {
    NextNumberIsFree(t, artifactId);
    var a, rows := t.artifacts[artifactId], t.versions[artifactId];
    var n := a.currentVersion + 1;
    var v := ArtifactVersion(versionId, artifactId, n, candidate, feedback, now, generationType);
    var a' := a.(currentVersion := n, updatedAt := now);
    assert ArtifactWellFormed(t, artifactId);
    ReplacePreservesInvariant(t, artifactId, a', rows[n := v]);
    assert Append(t, artifactId, candidate, feedback, generationType, versionId, now).tables
           == t.(artifacts := t.artifacts[artifactId := a'], versions := t.versions[artifactId := rows[n := v]]);
    AppendPointsAtHighest(t, artifactId, candidate, feedback, generationType, versionId, now);
  }

  /**
    On a legacy database the engine's numbering (highest + 1) and the legacy
    numbering (current + 1) coincide, so for content that differs from the
    current version both services write the same tables.
  */
  lemma {:induction false} AppendIsReviseOfNewContent(t: Tables, artifactId: Id, candidate: string,
                                                      feedback: Option<string>, generationType: GenerationType,
                                                      versionId: Id, now: Timestamp)
    requires LegacyWellFormed(t) && artifactId in t.artifacts
    ensures t.artifacts[artifactId].currentVersion in RowsOf(t, artifactId)
    ensures !AreContentsEqual(candidate, RowsOf(t, artifactId)[t.artifacts[artifactId].currentVersion].content) ==>
              var l := Append(t, artifactId, candidate, feedback, generationType, versionId, now);
              var e := Revise(t, artifactId, candidate, feedback, generationType, versionId, now);
              l.tables == e.tables && e.reply.Returned? && l.reply == Returned(e.reply.value.view)
  {
    assert ArtifactWellFormed(t, artifactId);
    NextNumberIsFree(t, artifactId);
  }

  /** The artifact `createArtifact` adds points at its only version. */
  lemma {:induction false} CreateArtifactPointsAtHighest(t: Tables, storyId: Id, artifactType: ArtifactType,
                                                         artifactId: Id, versionId: Id, now: Timestamp, gen: Generator)
    requires PointsAtHighest(t)
    ensures PointsAtHighest(CreateArtifactSpec(t, storyId, artifactType, artifactId, versionId, now, gen).tables)
  {
    var t' := CreateArtifactSpec(t, storyId, artifactType, artifactId, versionId, now, gen).tables;
    if storyId in t.stories {
      assert t'.versions[artifactId].Keys == {1};
    }
    OneArtifactChanged(t, t', artifactId);
  }

  /** `createArtifact` keeps the legacy invariant. */
  lemma {:induction false} CreateArtifactKeepsLegacyInvariant(t: Tables, storyId: Id, artifactType: ArtifactType,
                                                              artifactId: Id, versionId: Id, now: Timestamp, gen: Generator)
    requires LegacyWellFormed(t) && artifactId !in t.artifacts
    ensures LegacyWellFormed(CreateArtifactSpec(t, storyId, artifactType, artifactId, versionId, now, gen).tables)
  {
    if storyId in t.stories {
      var g := gen(artifactType, t.stories[storyId].content, None);
      var content := if g.Generated? then g.content else [];
      var a := Artifact(artifactId, storyId, artifactType, Draft, 1, now, now, None, None);
      var v := ArtifactVersion(versionId, artifactId, 1, content, None, now, AiGenerated);
      InsertPreservesInvariant(t, artifactId, a, map[1 := v]);
      assert CreateArtifactSpec(t, storyId, artifactType, artifactId, versionId, now, gen).tables
             == t.(artifacts := t.artifacts[artifactId := a], versions := t.versions[artifactId := map[1 := v]]);
    }
    CreateArtifactPointsAtHighest(t, storyId, artifactType, artifactId, versionId, now, gen);
  }

  /**
    `createArtifact` fails only for a missing story: a failing generator
    leaves version 1 empty instead of failing the call, and, given the same
    generated content, it does what the engine's `create` does.
  */
  lemma {:induction false} CreateArtifactOutcome(t: Tables, storyId: Id, artifactType: ArtifactType, artifactId: Id,
                                                 versionId: Id, now: Timestamp, gen: Generator)
    ensures var s := CreateArtifactSpec(t, storyId, artifactType, artifactId, versionId, now, gen);
            var g := gen(artifactType, if storyId in t.stories then t.stories[storyId].content else [], None);
            && (s.reply.Returned? <==> storyId in t.stories)
            && (storyId !in t.stories ==> s == Step(t, Threw("Story not found")))
            && (s.reply.Returned? ==>
                  && s.tables.versions[artifactId].Keys == {1}
                  && s.tables.artifacts[artifactId].currentVersion == 1
                  && s.tables.artifacts[artifactId].state == Draft
                  && s.reply.value.currentVersionContent == (if g.Generated? then g.content else [])
                  && (g.Generated? ==> s == CreateSpec(t, storyId, artifactType, artifactId, versionId, now, gen)))
  {
  }

  /**
    `addFeedbackAndIterate` returns null for a missing artifact and throws
    for a final one or a missing story; otherwise it always adds a version,
    even when the content repeats the current one, holding the generated
    content or, when generation fails, the placeholder naming the feedback.
    Nothing else changes but the artifact's current version and update time.
  */
  lemma {:induction false} AddFeedbackAndIterateOutcome(t: Tables, artifactId: Id, feedback: string, versionId: Id,
                                                        now: Timestamp, gen: Generator)
    requires LegacyWellFormed(t)
    ensures var s := AddFeedbackAndIterateSpec(t, artifactId, feedback, versionId, now, gen);
            && LegacyWellFormed(s.tables)
            && (s.reply == ReturnedNull <==> artifactId !in t.artifacts)
            && (artifactId !in t.artifacts ==> s.tables == t)
            && (artifactId in t.artifacts && t.artifacts[artifactId].state == Final ==>
                  s == Step(t, Threw("Cannot add feedback to finalized artifact")))
            && (artifactId in t.artifacts && t.artifacts[artifactId].state == Draft ==>
                  var a := t.artifacts[artifactId];
                  var n := a.currentVersion + 1;
                  var g := gen(a.artifactType, t.stories[a.storyId].content, Some(feedback));
                  && s.reply.Returned?
                  && s.reply.value.artifact.currentVersion == n
                  && s.tables.versions[artifactId].Keys == t.versions[artifactId].Keys + {n}
                  && s.reply.value.currentVersionFeedback == Some(feedback)
                  && s.reply.value.currentVersionContent == (if g.Generated? then g.content else FeedbackPlaceholder(feedback))
                  && var a' := a.(currentVersion := n, updatedAt := now);
                     var v := ArtifactVersion(versionId, artifactId, n, s.reply.value.currentVersionContent, Some(feedback),
                                              now, AiGenerated);
                     && s.reply == Returned(ViewOf(a', v))
                     && s.tables == t.(artifacts := t.artifacts[artifactId := a'],
                                       versions := t.versions[artifactId := t.versions[artifactId][n := v]]))
  {
    if artifactId in t.artifacts && t.artifacts[artifactId].state == Draft {
      var a := t.artifacts[artifactId];
      assert ArtifactWellFormed(t, artifactId);
      var g := gen(a.artifactType, t.stories[a.storyId].content, Some(feedback));
      var content := if g.Generated? then g.content else FeedbackPlaceholder(feedback);
      AppendPreservesLegacyInvariant(t, artifactId, content, Some(feedback), AiGenerated, versionId, now);
      AppendAddsOneVersion(t, artifactId, content, Some(feedback), AiGenerated, versionId, now);
    }
  }

  /**
    `updateArtifactContent` always adds the user's content as version
    `currentVersion + 1` of a draft, even when it repeats the current content,
    with no feedback; nothing else changes but the artifact's current version
    and update time.
  */
  lemma {:induction false} UpdateArtifactContentOutcome(t: Tables, artifactId: Id, content: string, versionId: Id,
                                                        now: Timestamp)
    requires LegacyWellFormed(t)
    ensures var s := UpdateArtifactContentSpec(t, artifactId, content, versionId, now);
            && LegacyWellFormed(s.tables)
            && (s.reply == ReturnedNull <==> artifactId !in t.artifacts)
            && (artifactId !in t.artifacts ==> s.tables == t)
            && (artifactId in t.artifacts && t.artifacts[artifactId].state == Final ==>
                  s == Step(t, Threw("Cannot edit finalized artifact")))
            && (artifactId in t.artifacts && t.artifacts[artifactId].state == Draft ==>
                  var n := t.artifacts[artifactId].currentVersion + 1;
                  && s.reply.Returned? && s.reply.value.artifact.currentVersion == n
                  && s.tables.versions[artifactId].Keys == t.versions[artifactId].Keys + {n}
                  && s.reply.value.currentVersionContent == content
                  && s.reply.value.currentVersionGenerationType == UserEdited
                  && s.reply.value.currentVersionFeedback == None
                  && var a := t.artifacts[artifactId];
                     var a' := a.(currentVersion := n, updatedAt := now);
                     var v := ArtifactVersion(versionId, artifactId, n, content, None, now, UserEdited);
                     && s.reply == Returned(ViewOf(a', v))
                     && s.tables == t.(artifacts := t.artifacts[artifactId := a'],
                                       versions := t.versions[artifactId := t.versions[artifactId][n := v]]))
  {
    if artifactId in t.artifacts && t.artifacts[artifactId].state == Draft {
      AppendPreservesLegacyInvariant(t, artifactId, content, None, UserEdited, versionId, now);
      AppendAddsOneVersion(t, artifactId, content, None, UserEdited, versionId, now);
    }
  }

  /**
    Given the same candidate content (for feedback, the same generated
    content), where the engine would add a version the legacy service writes
    the same tables: the two differ only on content equal to the current
    version up to whitespace, which the engine does not store again.
  */
  lemma {:induction false} LegacyAgreesWithEngineOnNewContent(t: Tables, artifactId: Id, text: string, versionId: Id,
                                                              now: Timestamp, gen: Generator)
    requires LegacyWellFormed(t) && artifactId in t.artifacts
    ensures var a := t.artifacts[artifactId];
            var current := t.versions[artifactId][a.currentVersion];
            && (!AreContentsEqual(text, current.content) ==>
                  UpdateArtifactContentSpec(t, artifactId, text, versionId, now).tables
                  == UpdateContentSpec(t, artifactId, text, versionId, now).tables)
            && (a.storyId in t.stories
                && gen(a.artifactType, t.stories[a.storyId].content, Some(text)).Generated?
                && !AreContentsEqual(gen(a.artifactType, t.stories[a.storyId].content, Some(text)).content, current.content) ==>
                  AddFeedbackAndIterateSpec(t, artifactId, text, versionId, now, gen).tables
                  == AddFeedbackSpec(t, artifactId, text, versionId, now, gen).tables)
  {
    assert ArtifactWellFormed(t, artifactId);
    var a := t.artifacts[artifactId];
    AppendIsReviseOfNewContent(t, artifactId, text, None, UserEdited, versionId, now);
    if a.storyId in t.stories {
      var g := gen(a.artifactType, t.stories[a.storyId].content, Some(text));
      if g.Generated? {
        AppendIsReviseOfNewContent(t, artifactId, g.content, Some(text), AiGenerated, versionId, now);
      }
    }
  }

  /** `finalizeArtifact` never changes a current version. */
  lemma {:induction false} FinalizePointsAtHighest(t: Tables, artifactId: Id, now: Timestamp)
    requires PointsAtHighest(t)
    ensures PointsAtHighest(FinalizeSpec(t, artifactId, now).tables)
  {
    if artifactId in t.artifacts && artifactId in t.versions {
      assert IsMax(t.artifacts[artifactId].currentVersion, t.versions[artifactId].Keys);
    }
    OneArtifactChanged(t, FinalizeSpec(t, artifactId, now).tables, artifactId);
  }

  /** The copy made by `duplicateArtifact` points at its only version. */
  lemma {:induction false} DuplicatePointsAtHighest(t: Tables, sourceId: Id, newId: Id, versionId: Id, now: Timestamp)
    requires PointsAtHighest(t)
    ensures PointsAtHighest(DuplicateSpec(t, sourceId, newId, versionId, now).tables)
  {
    var d := DuplicateSpec(t, sourceId, newId, versionId, now).tables;
    if d != t {
      assert d.versions[newId].Keys == {1};
    }
    OneArtifactChanged(t, d, newId);
  }

  /** `finalizeArtifact` and `duplicateArtifact` keep the legacy invariant. */
  lemma {:induction false} FinalizeAndDuplicateKeepLegacyInvariant(t: Tables, artifactId: Id, newId: Id, versionId: Id,
                                                                   now: Timestamp)
    requires LegacyWellFormed(t) && newId !in t.artifacts
    ensures LegacyWellFormed(FinalizeSpec(t, artifactId, now).tables)
    ensures LegacyWellFormed(DuplicateSpec(t, artifactId, newId, versionId, now).tables)
  {
    FinalizePreservesInvariant(t, artifactId, now);
    DuplicatePreservesInvariant(t, artifactId, newId, versionId, now);
    FinalizePointsAtHighest(t, artifactId, now);
    DuplicatePointsAtHighest(t, artifactId, newId, versionId, now);
  }

  /**
    Under the invariant the legacy listing of a story, which joins nothing,
    holds the same artifacts in the same order as the engine's listing, each
    artifact of the story exactly once.
  */
  lemma {:induction false} LegacyListingMatchesEngine(t: Tables, storyId: Id)
    requires WellFormed(t)
    ensures var r, items := GetArtifactsByStoryId(t, storyId), GetByStoryId(t, storyId);
            && |r| == |items|
            && (forall i :: 0 <= i < |r| ==> r[i] == items[i].artifact)
            && (forall i, j :: 0 <= i < j < |r| ==> r[i].id != r[j].id)
  {
    var order := NewestFirst(t.artifacts, StoryArtifactIds(t, storyId));
    EngineListingFollows(t, storyId);
    LegacyListingFollows(t, storyId);
    forall i | 0 <= i < |order| ensures t.artifacts[order[i]].id == order[i] {
      assert ArtifactWellFormed(t, order[i]);
    }
  }

  /** Under the invariant the engine lists the story's artifacts in the order the legacy listing uses. */
  lemma {:induction false} EngineListingFollows(t: Tables, storyId: Id)
    requires WellFormed(t)
    ensures var order, items := NewestFirst(t.artifacts, StoryArtifactIds(t, storyId)), GetByStoryId(t, storyId);
            |items| == |order| && forall i :: 0 <= i < |items| ==> items[i].artifact == t.artifacts[order[i]]
  {
    assert JoinedIds(t, storyId) == StoryArtifactIds(t, storyId) by {
      StoryListingUnderInvariant(t, storyId);
    }
  }

  /** The legacy listing is the records of its order. */
  lemma {:induction false} LegacyListingFollows(t: Tables, storyId: Id)
    ensures var order, r := NewestFirst(t.artifacts, StoryArtifactIds(t, storyId)), GetArtifactsByStoryId(t, storyId);
            |r| == |order| && forall i :: 0 <= i < |r| ==> r[i] == t.artifacts[order[i]]
  {
  }

  /**
    The two services cannot share a database: after the engine restores
    version 1 of versions 1 and 2, the legacy edit numbers its row 2, a number
    that is already taken.
  */
  lemma {:induction false} RestoreBreaksLegacyNumbering(t: Tables, artifactId: Id, content: string, versionId: Id,
                                                        now1: Timestamp, now2: Timestamp)
    requires WellFormed(t) && artifactId in t.artifacts && t.artifacts[artifactId].state == Draft
    requires t.versions[artifactId].Keys == {1, 2} && t.artifacts[artifactId].currentVersion == 2
    ensures var t1 := RestoreVersionSpec(t, artifactId, 1, now1).tables;
            var s := UpdateArtifactContentSpec(t1, artifactId, content, versionId, now2);
            && WellFormed(t1) && !LegacyWellFormed(t1)
            && s.reply.Returned? && s.reply.value.artifact.currentVersion == 2
            && 2 in RowsOf(t1, artifactId)
  {
    RestoreVersionPreservesInvariant(t, artifactId, 1, now1);
    var t1 := RestoreVersionSpec(t, artifactId, 1, now1).tables;
    assert t1.artifacts[artifactId].currentVersion == 1;
    assert 2 in t1.versions[artifactId].Keys;
    assert !IsMax(1, t1.versions[artifactId].Keys);
  }
}
