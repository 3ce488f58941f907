/**
  The story service (src/services/storyService.ts): the one story each spark
  is written into, with its two save paths. A manual save moves `updatedAt`
  (and `lastAutoSavedAt` when flagged as an auto-save); the auto-save path
  moves only `lastAutoSavedAt`.
*/
module StoryService {
  import opened Wrappers
  import opened ArtifactModel
  import opened Store

  // ---------------------------------------------------------------------
  // Specifications
  // ---------------------------------------------------------------------

  /** `getStoryById`: the stored story, or null. */
  function GetStoryById(t: Tables, id: Id): (r: Option<Story>)
    ensures r.Some? <==> id in t.stories
    ensures r.Some? ==> r.value == t.stories[id]
  {
    if id in t.stories then Some(t.stories[id]) else None
  }

  /** `createStory`: a story with the given content (empty when absent) and all three timestamps set to now. */
  function CreateStorySpec(t: Tables, id: Id, sparkId: Id, content: Option<string>, now: Timestamp): Step<Story> {
    var story := Story(id, sparkId, content.GetOr(""), now, now, now);
    Step(t.(stories := t.stories[id := story]), Returned(story))
  }

  /** `updateStory`: store the content and move `updatedAt`, and `lastAutoSavedAt` too for an auto-save. */
  function UpdateStorySpec(t: Tables, id: Id, content: string, isAutoSave: bool, now: Timestamp): Step<Story> {
    if id !in t.stories then Step(t, ReturnedNull)
    else
      var s := t.stories[id];
      var s' := s.(content := content, updatedAt := now,
                   lastAutoSavedAt := if isAutoSave then now else s.lastAutoSavedAt);
      Step(t.(stories := t.stories[id := s']), Returned(s'))
  }

  /** `autoSaveStory`: store the content and move only `lastAutoSavedAt`; the reply is the save time in any case. */
  function AutoSaveStorySpec(t: Tables, id: Id, content: string, now: Timestamp): Step<Timestamp> {
    if id !in t.stories then Step(t, Returned(now))
    else
      var s := t.stories[id];
      Step(t.(stories := t.stories[id := s.(content := content, lastAutoSavedAt := now)]), Returned(now))
  }

  // ---------------------------------------------------------------------
  // The service methods on the database
  // ---------------------------------------------------------------------

  method CreateStory(db: Db, id: Id, sparkId: Id, content: Option<string>, now: Timestamp) returns (r: Outcome<Story>)
    modifies db
    ensures var s := CreateStorySpec(old(db.Snapshot()), id, sparkId, content, now);
            db.Snapshot() == s.tables && r == s.reply
  {
    var story := Story(id, sparkId, if content.Some? then content.value else "", now, now, now);
    db.stories := db.stories[id := story];
    return Returned(story);
  }

  method UpdateStory(db: Db, id: Id, content: string, isAutoSave: bool, now: Timestamp) returns (r: Outcome<Story>)
    modifies db
    ensures var s := UpdateStorySpec(old(db.Snapshot()), id, content, isAutoSave, now);
            db.Snapshot() == s.tables && r == s.reply
  {
    if id in db.stories {
      var story := db.stories[id];
      var updated := story.(content := content, updatedAt := now);
      if isAutoSave {
        updated := updated.(lastAutoSavedAt := now);
      }
      db.stories := db.stories[id := updated];
    }
    if id !in db.stories {
      return ReturnedNull;
    }
    return Returned(db.stories[id]);
  }

  method AutoSaveStory(db: Db, id: Id, content: string, now: Timestamp) returns (r: Outcome<Timestamp>)
    modifies db
    ensures var s := AutoSaveStorySpec(old(db.Snapshot()), id, content, now);
            db.Snapshot() == s.tables && r == s.reply
  {
    if id in db.stories {
      db.stories := db.stories[id := db.stories[id].(content := content, lastAutoSavedAt := now)];
    }
    return Returned(now);
  }

  /**
    `getStoryBySparkId`: some story written for the spark, or null when it has
    none. Nothing makes the spark id unique, and which of several stories the
    query yields is not fixed.
  */
  method GetStoryBySparkId(db: Db, sparkId: Id) returns (r: Option<Story>)
    ensures r.None? <==> forall id :: id in db.stories ==> db.stories[id].sparkId != sparkId
    ensures r.Some? ==> r.value.sparkId == sparkId && r.value in db.stories.Values
  {
    if exists id :: id in db.stories && db.stories[id].sparkId == sparkId {
      var id :| id in db.stories && db.stories[id].sparkId == sparkId;
      return Some(db.stories[id]);
    }
    return None;
  }

  // ---------------------------------------------------------------------
  // Properties
  // ---------------------------------------------------------------------

  /**
    A created story can be read back as created, with its content defaulting
    to empty and its three timestamps equal; nothing but the stories table
    changes.
  */
  lemma {:induction false} CreateThenGetStory(t: Tables, id: Id, sparkId: Id, content: Option<string>, now: Timestamp)
    ensures var s := CreateStorySpec(t, id, sparkId, content, now);
            && s.reply.Returned?
            && GetStoryById(s.tables, id) == Some(s.reply.value)
            && s.reply.value.content == (if content.Some? then content.value else [])
            && s.reply.value.sparkId == sparkId
            && s.reply.value.createdAt == s.reply.value.updatedAt == s.reply.value.lastAutoSavedAt == now
            && s.tables.artifacts == t.artifacts && s.tables.versions == t.versions
            && (forall x :: x in t.stories && x != id ==> GetStoryById(s.tables, x) == GetStoryById(t, x))
  {
  }

  /**
    `updateStory` answers null exactly for an unknown id; otherwise its reply is
    what a read returns afterwards, holding the new content, `updatedAt` is now,
    `lastAutoSavedAt` is now exactly for an auto-save (and kept otherwise), and
    the id, spark and creation time are kept.
  */
  lemma {:induction false} UpdateStoryTimestamps(t: Tables, id: Id, content: string, isAutoSave: bool, now: Timestamp)
    ensures var s := UpdateStorySpec(t, id, content, isAutoSave, now);
            && (s.reply == ReturnedNull <==> id !in t.stories)
            && (id !in t.stories ==> s.tables == t)
            && (id in t.stories ==>
                  var prior := t.stories[id];
                  && s.reply.Returned? && GetStoryById(s.tables, id) == Some(s.reply.value)
                  && s.reply.value.content == content
                  && s.reply.value.updatedAt == now
                  && (isAutoSave ==> s.reply.value.lastAutoSavedAt == now)
                  && (!isAutoSave ==> s.reply.value.lastAutoSavedAt == prior.lastAutoSavedAt)
                  && s.reply.value.id == prior.id && s.reply.value.sparkId == prior.sparkId
                  && s.reply.value.createdAt == prior.createdAt)
            && s.tables.artifacts == t.artifacts && s.tables.versions == t.versions
            && s.tables.stories.Keys == t.stories.Keys
  {
  }

  /**
    `autoSaveStory` never moves `updatedAt`: it stores the content and the save
    time only, and replies with the save time even for an unknown id, which it
    leaves unknown.
  */
  lemma {:induction false} AutoSaveKeepsUpdatedAt(t: Tables, id: Id, content: string, now: Timestamp)
    ensures var s := AutoSaveStorySpec(t, id, content, now);
            && s.reply == Returned(now)
            && (id !in t.stories ==> s.tables == t)
            && (id in t.stories ==>
                  var before, after := t.stories[id], s.tables.stories[id];
                  && after.content == content && after.lastAutoSavedAt == now
                  && after.updatedAt == before.updatedAt && after.createdAt == before.createdAt
                  && after.id == before.id && after.sparkId == before.sparkId)
            && s.tables.artifacts == t.artifacts && s.tables.versions == t.versions
            && s.tables.stories.Keys == t.stories.Keys
  {
  }

  /** An auto-save through `updateStory` and one through `autoSaveStory` store the same content and save time. */
  lemma {:induction false} TwoAutoSavePaths(t: Tables, id: Id, content: string, now: Timestamp)
    requires id in t.stories
    ensures var u := UpdateStorySpec(t, id, content, true, now).tables.stories[id];
            var a := AutoSaveStorySpec(t, id, content, now).tables.stories[id];
            u.content == a.content && u.lastAutoSavedAt == a.lastAutoSavedAt
            && u == a.(updatedAt := now)
  {
  }

  /** No story operation breaks the artifact invariant: stories are only added or rewritten under their own id. */
  lemma {:induction false} StoryOperationsKeepInvariant(t: Tables, id: Id, sparkId: Id, content: string,
                                                        isAutoSave: bool, now: Timestamp)
    requires WellFormed(t)
    ensures WellFormed(CreateStorySpec(t, id, sparkId, Some(content), now).tables)
    ensures WellFormed(UpdateStorySpec(t, id, content, isAutoSave, now).tables)
    ensures WellFormed(AutoSaveStorySpec(t, id, content, now).tables)
  {
    StoryRewriteKeepsInvariant(t, CreateStorySpec(t, id, sparkId, Some(content), now).tables);
    StoryRewriteKeepsInvariant(t, UpdateStorySpec(t, id, content, isAutoSave, now).tables);
    StoryRewriteKeepsInvariant(t, AutoSaveStorySpec(t, id, content, now).tables);
  }

  /** Tables that differ only in stories that keep their ids and gain none missing keep the invariant. */
  lemma {:induction false} StoryRewriteKeepsInvariant(t: Tables, t': Tables)
    requires WellFormed(t)
    requires t'.artifacts == t.artifacts && t'.versions == t.versions
    requires t.stories.Keys <= t'.stories.Keys
    requires forall x :: x in t'.stories ==> t'.stories[x].id == x
    ensures WellFormed(t')
  {
    forall x | x in t'.artifacts ensures x in t'.versions && ArtifactWellFormed(t', x) {
      assert ArtifactWellFormed(t, x);
    }
  }
}
