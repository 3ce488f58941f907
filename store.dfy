/**
  The three tables the services share (stories, artifacts, artifact versions)
  and the invariant every service operation keeps.

  The versions table is grouped by artifact: `versions[a][n]` is the row of
  artifact `a` numbered `n`. The database is a class whose fields the service
  methods reassign; each service operation is also given as a function from
  the old tables to a `Step` (the new tables and the reply), so that its
  properties can be proved as lemmas.
*/
module Store {
  import opened Wrappers
  import opened ArtifactModel

  /** A row of the stories table. */
  datatype Story = Story(
    id: Id,
    sparkId: Id,
    content: string,
    createdAt: Timestamp,
    updatedAt: Timestamp,
    lastAutoSavedAt: Timestamp)

  datatype Tables = Tables(
    stories: map<Id, Story>,
    artifacts: map<Id, Artifact>,
    versions: map<Id, map<int, ArtifactVersion>>)

  /** What a service call does: return a value, return `null`, or throw an `Error` with a message. */
  datatype Outcome<T> = Returned(value: T) | ReturnedNull | Threw(message: string)

  /** The tables after a service call, and its reply. */
  datatype Step<T> = Step(tables: Tables, reply: Outcome<T>)

  /** The version rows of one artifact (none when the artifact has no entry). */
  function RowsOf(t: Tables, artifactId: Id): map<int, ArtifactVersion> {
    if artifactId in t.versions then t.versions[artifactId] else map[]
  }

  /** A record of the artifacts table is consistent with the rest of the database. */
  ghost predicate ArtifactWellFormed(t: Tables, id: Id)
    requires id in t.artifacts && id in t.versions
  {
    var a, rows := t.artifacts[id], t.versions[id];
    && a.id == id
    && a.storyId in t.stories
    && a.currentVersion in rows
    && (forall n :: n in rows ==> n >= 1 && rows[n].version == n && rows[n].artifactId == id)
    && (a.finalizedAt.Some? <==> a.state == Final)
    && (a.sourceArtifactId.Some? ==>
          a.sourceArtifactId.value in t.artifacts && t.artifacts[a.sourceArtifactId.value].state == Final)
  }

  /**
    The database invariant: every artifact has version rows, its current
    version number names one of them, version numbers are positive, a finalisation
    time is set exactly on final artifacts, and a duplicate's source is a
    final artifact that still exists.
  */
  ghost predicate WellFormed(t: Tables) {
    && t.versions.Keys == t.artifacts.Keys
    && (forall id :: id in t.stories ==> t.stories[id].id == id)
    && (forall id :: id in t.artifacts ==> id in t.versions && ArtifactWellFormed(t, id))
  }

  /** `m` is the largest element of `s`. */
  predicate IsMax(m: int, s: set<int>) {
    m in s && forall k :: k in s ==> k <= m
  }

  /** A non-empty set has an element. */
  lemma NonEmptyHasElement<T>(s: set<T>) returns (x: T)
    requires s != {}
    ensures x in s
  {
    if forall y :: y !in s {
      assert false;
    }
    x :| x in s;
  }

  /** Every finite non-empty set of integers has a largest element. */
  lemma {:induction false} MaxExists(s: set<int>)
    requires s != {}
    ensures exists m :: IsMax(m, s)
    decreases |s|
  {
    var x := NonEmptyHasElement(s);
    if s != {x} {
      MaxExists(s - {x});
      var m' :| IsMax(m', s - {x});
      var m := if x < m' then m' else x;
      forall k | k in s ensures k <= m {
        if k != x {
          assert k in s - {x};
        }
      }
      assert IsMax(m, s);
    } else {
      assert IsMax(x, s);
    }
  }

  /** `Math.max(...)` over a non-empty set of version numbers. */
  function MaxOf(s: set<int>): (m: int)
    requires s != {}
    ensures IsMax(m, s)
  {
    MaxExists(s);
    var m :| IsMax(m, s);
    m
  }

  /** A set has only one largest element. */
  lemma MaxIsUnique(m: int, s: set<int>)
    requires s != {} && IsMax(m, s)
    ensures m == MaxOf(s)
  {
  }

  /** `Math.max(...versions.map(v => v.version))`, one row at a time. */
  method MaxVersion(rows: map<int, ArtifactVersion>) returns (m: int)
    requires rows != map[]
    ensures m == MaxOf(rows.Keys)
  {
    var rest := rows.Keys;
    ghost var some := NonEmptyHasElement(rest);
    var first :| first in rest;
    m := first;
    rest := rest - {first};
    while rest != {}
      invariant rest <= rows.Keys
      invariant m in rows.Keys
      invariant forall k :: k in rows.Keys && k !in rest ==> k <= m
      decreases |rest|
    {
      ghost var some := NonEmptyHasElement(rest);
      var k :| k in rest;
      if k > m {
        m := k;
      }
      rest := rest - {k};
    }
    MaxIsUnique(m, rows.Keys);
  }

  /** The database the services read and write. */
  class Db {
    var stories: map<Id, Story>
    var artifacts: map<Id, Artifact>
    var versions: map<Id, map<int, ArtifactVersion>>

    /** The contents of the three tables. */
    function Snapshot(): Tables
      reads this
    {
      Tables(stories, artifacts, versions)
    }

    /** An empty database. */
    constructor ()
      ensures Snapshot() == Tables(map[], map[], map[])
      ensures WellFormed(Snapshot())
    {
      stories, artifacts, versions := map[], map[], map[];
    }
  }
}
