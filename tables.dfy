/**
 * The two SQLite tables the handlers read and write, as in-memory values.
 *
 * A table is a sequence of rows in rowid order, which is the order SQLite
 * stores and scans a rowid table in: ids are positive and strictly
 * increasing along the sequence, and `ORDER BY id` is the sequence order.
 * An insert takes the rowid one past the largest (1 in an empty table),
 * which is what `last_insert_rowid()` then reports.
 */
module Tables {
  import opened Wrappers
  import Models

  /** A row of `projects`. */
  datatype ProjectRow = ProjectRow(projectId: int, project: string)

  /** A row of `badges`. `result` is the stored integer: rows written by the
      handlers hold a discriminant, but the reader cannot assume it. */
  datatype BadgeRow = BadgeRow(
    id: int,
    changeNumber: int,
    addedAt: int,
    buildType: string,
    result: int,
    url: string,
    projectId: int,
    archivePath: string)

  /** The contents of both tables at one moment. */
  datatype Snapshot = Snapshot(projects: seq<ProjectRow>, badges: seq<BadgeRow>)

  ghost predicate ProjectsInRowidOrder(ps: seq<ProjectRow>)
  {
    && (forall i :: 0 <= i < |ps| ==> ps[i].projectId > 0)
    && (forall i, j :: 0 <= i < j < |ps| ==> ps[i].projectId < ps[j].projectId)
  }

  ghost predicate BadgesInRowidOrder(bs: seq<BadgeRow>)
  {
    && (forall i :: 0 <= i < |bs| ==> bs[i].id > 0)
    && (forall i, j :: 0 <= i < j < |bs| ==> bs[i].id < bs[j].id)
  }

  /** How SQLite keeps both tables. */
  ghost predicate InRowidOrder(t: Snapshot)
  {
    ProjectsInRowidOrder(t.projects) && BadgesInRowidOrder(t.badges)
  }

  /** No two projects share a name. */
  ghost predicate NamesDistinct(ps: seq<ProjectRow>)
  {
    forall i, j :: 0 <= i < j < |ps| ==> ps[i].project != ps[j].project
  }

  ghost predicate ProjectExists(ps: seq<ProjectRow>, projectId: int)
  {
    exists i :: 0 <= i < |ps| && ps[i].projectId == projectId
  }

  /** Every badge names a project that exists. */
  ghost predicate BadgesHaveProjects(t: Snapshot)
  {
    forall i :: 0 <= i < |t.badges| ==> ProjectExists(t.projects, t.badges[i].projectId)
  }

  /** What the handlers' writes keep true of the tables. */
  ghost predicate Consistent(t: Snapshot)
  {
    InRowidOrder(t) && NamesDistinct(t.projects) && BadgesHaveProjects(t)
  }

  /** The rowid of the next project insert. */
  function NextProjectId(ps: seq<ProjectRow>): (id: int)
    requires ProjectsInRowidOrder(ps)
    ensures id > 0
    ensures forall i :: 0 <= i < |ps| ==> ps[i].projectId < id
  {
    if ps == [] then 1 else ps[|ps| - 1].projectId + 1
  }

  /** The rowid of the next badge insert. */
  function NextBadgeId(bs: seq<BadgeRow>): (id: int)
    requires BadgesInRowidOrder(bs)
    ensures id > 0
    ensures forall i :: 0 <= i < |bs| ==> bs[i].id < id
  {
    if bs == [] then 1 else bs[|bs| - 1].id + 1
  }

  /** `SELECT project_id FROM projects WHERE project = ? LIMIT 1`: the id of
      the first project row with that name. */
  function FindProject(ps: seq<ProjectRow>, name: string): (r: Option<int>)
    ensures r.Some? ==> ProjectRow(r.value, name) in ps
    ensures r.None? <==> forall i :: 0 <= i < |ps| ==> ps[i].project != name
  {
    if ps == [] then None
    else if ps[0].project == name then Some(ps[0].projectId)
    else FindProject(ps[1..], name)
  }

  /** Get-or-add in one step: the projects table afterwards and the id the
      name resolves to. */
  function Resolve(ps: seq<ProjectRow>, name: string): (r: (seq<ProjectRow>, int))
    requires ProjectsInRowidOrder(ps)
    ensures ProjectRow(r.1, name) in r.0
    ensures ps <= r.0 && |r.0| <= |ps| + 1
  {
    match FindProject(ps, name)
    case Some(id) => (ps, id)
    case None =>
      var id := NextProjectId(ps);
      (ps + [ProjectRow(id, name)], id)
  }

  /** A name that no earlier row has resolves to the row appended for it. */
  lemma {:induction false} FindProjectAppended(ps: seq<ProjectRow>, row: ProjectRow)
    requires forall i :: 0 <= i < |ps| ==> ps[i].project != row.project
    ensures FindProject(ps + [row], row.project) == Some(row.projectId)
    decreases |ps|
  {
    if ps != [] {
      assert (ps + [row])[1..] == ps[1..] + [row];
      FindProjectAppended(ps[1..], row);
    }
  }

  /** Get-or-add returns the id of a row with that name; it leaves a table
      that has one unchanged, and otherwise appends exactly one row with a
      fresh id. Rowid order and distinct names are kept. */
  lemma ResolveSpec(ps: seq<ProjectRow>, name: string)
    requires ProjectsInRowidOrder(ps)
    ensures var (ps', id) := Resolve(ps, name);
      && ProjectsInRowidOrder(ps')
      && ProjectRow(id, name) in ps'
      && ((exists i :: 0 <= i < |ps| && ps[i].project == name) ==> ps' == ps)
      && ((forall i :: 0 <= i < |ps| ==> ps[i].project != name) ==>
            && ps' == ps + [ProjectRow(id, name)]
            && forall i :: 0 <= i < |ps| ==> ps[i].projectId != id)
      && (NamesDistinct(ps) ==> NamesDistinct(ps'))
  {
  }

  /** Two get-or-adds of one name in a row: the second returns the first's
      id and adds nothing, so the pair adds at most one row. */
  lemma ResolveTwice(ps: seq<ProjectRow>, name: string)
    requires ProjectsInRowidOrder(ps)
    ensures ProjectsInRowidOrder(Resolve(ps, name).0)
    ensures Resolve(Resolve(ps, name).0, name) == Resolve(ps, name)
    ensures |Resolve(ps, name).0| <= |ps| + 1
  {
    ResolveSpec(ps, name);
    if FindProject(ps, name).None? {
      FindProjectAppended(ps, ProjectRow(NextProjectId(ps), name));
    }
  }

  /** The inner join `badges INNER JOIN projects USING(project_id)` restricted
      to `project = name`: some project row with the badge's id has that name. */
  predicate InProject(ps: seq<ProjectRow>, b: BadgeRow, name: string)
  {
    exists i :: 0 <= i < |ps| && ps[i].projectId == b.projectId && ps[i].project == name
  }

  /** `... WHERE project = ? ORDER BY id DESC LIMIT 1`: scanning from the
      newest row, the first badge of the project. */
  function NewestInProject(ps: seq<ProjectRow>, bs: seq<BadgeRow>, name: string): (r: Option<BadgeRow>)
    ensures r.Some? ==> r.value in bs && InProject(ps, r.value, name)
    ensures r.None? ==> forall i :: 0 <= i < |bs| ==> !InProject(ps, bs[i], name)
    decreases |bs|
  {
    if bs == [] then None
    else if InProject(ps, bs[|bs| - 1], name) then Some(bs[|bs| - 1])
    else NewestInProject(ps, bs[..|bs| - 1], name)
  }

  /** `row.map_or(0, |row| row.id)` over that query. */
  function LastBuildId(t: Snapshot, name: string): (id: int)
    ensures id == 0 || exists i :: 0 <= i < |t.badges| && InProject(t.projects, t.badges[i], name) && t.badges[i].id == id
    ensures (forall i :: 0 <= i < |t.badges| ==> !InProject(t.projects, t.badges[i], name)) ==> id == 0
  {
    match NewestInProject(t.projects, t.badges, name)
    case None => 0
    case Some(b) => b.id
  }

  lemma {:induction false} NewestIsLargest(ps: seq<ProjectRow>, bs: seq<BadgeRow>, name: string, i: int)
    requires BadgesInRowidOrder(bs)
    requires 0 <= i < |bs| && InProject(ps, bs[i], name)
    ensures NewestInProject(ps, bs, name).Some?
    ensures bs[i].id <= NewestInProject(ps, bs, name).value.id
    decreases |bs|
  {
    var last := |bs| - 1;
    if !InProject(ps, bs[last], name) {
      assert i < last;
      NewestIsLargest(ps, bs[..last], name, i);
    } else if i < last {
      assert bs[i].id < bs[last].id;
    }
  }

  /** The latest build id of a project is the largest id among its badges,
      and 0 exactly when it has none. */
  lemma LastBuildIdIsMax(t: Snapshot, name: string)
    requires InRowidOrder(t)
    ensures var m := LastBuildId(t, name);
      && m >= 0
      && (m == 0 <==> forall i :: 0 <= i < |t.badges| ==> !InProject(t.projects, t.badges[i], name))
      && (m != 0 ==> exists i :: 0 <= i < |t.badges| && InProject(t.projects, t.badges[i], name) && t.badges[i].id == m)
      && (forall i :: 0 <= i < |t.badges| && InProject(t.projects, t.badges[i], name) ==> t.badges[i].id <= m)
  {
    var bs := t.badges;
    forall i | 0 <= i < |bs| && InProject(t.projects, bs[i], name)
      ensures bs[i].id <= LastBuildId(t, name)
    {
      NewestIsLargest(t.projects, bs, name, i);
    }
    var r := NewestInProject(t.projects, bs, name);
    if r.Some? {
      var k :| 0 <= k < |bs| && bs[k] == r.value;
      assert bs[k].id > 0;
    }
  }

  /** `... WHERE id > ? AND project = ? ORDER BY id ASC`: the project's badges
      after the cursor, in table order. */
  function Selected(ps: seq<ProjectRow>, bs: seq<BadgeRow>, name: string, cursor: int): (rows: seq<BadgeRow>)
    ensures forall r :: r in rows ==> r in bs && r.id > cursor && InProject(ps, r, name)
    ensures forall r :: r in bs && r.id > cursor && InProject(ps, r, name) ==> r in rows
    decreases |bs|
  {
    if bs == [] then []
    else
      var tail := Selected(ps, bs[1..], name, cursor);
      if bs[0].id > cursor && InProject(ps, bs[0], name) then [bs[0]] + tail else tail
  }

  /** The selected rows come in strictly ascending id order. */
  lemma {:induction false} SelectedAscending(ps: seq<ProjectRow>, bs: seq<BadgeRow>, name: string, cursor: int)
    requires BadgesInRowidOrder(bs)
    ensures BadgesInRowidOrder(Selected(ps, bs, name, cursor))
    decreases |bs|
  {
    if bs != [] {
      var tail := Selected(ps, bs[1..], name, cursor);
      OrderedTail(bs);
      SelectedAscending(ps, bs[1..], name, cursor);
      if bs[0].id > cursor && InProject(ps, bs[0], name) {
        ConsOrdered(bs[0], tail);
      }
    }
  }

  /** Dropping the first row keeps the order, and that row is the smallest. */
  lemma OrderedTail(bs: seq<BadgeRow>)
    requires bs != [] && BadgesInRowidOrder(bs)
    ensures BadgesInRowidOrder(bs[1..])
    ensures forall r :: r in bs[1..] ==> bs[0].id < r.id
  {
    forall r | r in bs[1..] ensures bs[0].id < r.id {
      var k :| 0 <= k < |bs[1..]| && bs[1..][k] == r;
      assert bs[k + 1] == r;
    }
  }

  /** A row smaller than every row of an ordered table can go in front. */
  lemma ConsOrdered(b: BadgeRow, rows: seq<BadgeRow>)
    requires BadgesInRowidOrder(rows) && b.id > 0
    requires forall r :: r in rows ==> b.id < r.id
    ensures BadgesInRowidOrder([b] + rows)
  {
    forall j | 1 <= j < |[b] + rows| ensures b.id < ([b] + rows)[j].id {
      assert ([b] + rows)[j] == rows[j - 1];
    }
  }

  /** Selecting from a table with one more row at the end. */
  lemma {:induction false} SelectedAppend(ps: seq<ProjectRow>, bs: seq<BadgeRow>, b: BadgeRow, name: string, cursor: int)
    ensures Selected(ps, bs + [b], name, cursor)
         == Selected(ps, bs, name, cursor) + (if b.id > cursor && InProject(ps, b, name) then [b] else [])
    decreases |bs|
  {
    if bs == [] {
      assert [b][1..] == [];
    } else {
      assert (bs + [b])[1..] == bs[1..] + [b];
      SelectedAppend(ps, bs[1..], b, name, cursor);
    }
  }

  /** The row `build_create` inserts. */
  function NewBadgeRow(bs: seq<BadgeRow>, req: Models.CreateBadge, addedAt: int, projectId: int): BadgeRow
    requires BadgesInRowidOrder(bs)
  {
    BadgeRow(NextBadgeId(bs), req.changeNumber, addedAt, req.buildType,
             Models.Discriminant(req.result) as int, req.url, projectId, req.archivePath)
  }

  /** A badge submission that meets no storage failure: get-or-add the
      project, then insert the badge row. */
  function Submit(t: Snapshot, req: Models.CreateBadge, addedAt: int): (t': Snapshot)
    requires InRowidOrder(t)
    ensures t.projects <= t'.projects && t.badges <= t'.badges
    ensures |t'.badges| == |t.badges| + 1 && t'.badges[|t.badges|].id == NextBadgeId(t.badges)
  {
    var (ps, projectId) := Resolve(t.projects, req.project);
    Snapshot(ps, t.badges + [NewBadgeRow(t.badges, req, addedAt, projectId)])
  }

  /** A submission leaves every existing row as it was and adds one badge
      that records the request under the requested project. */
  lemma SubmitRecords(t: Snapshot, req: Models.CreateBadge, addedAt: int)
    requires InRowidOrder(t)
    ensures var t' := Submit(t, req, addedAt);
      && |t'.badges| == |t.badges| + 1
      && t'.badges[..|t.badges|] == t.badges
      && t'.projects[..|t.projects|] == t.projects
      && var b := t'.badges[|t.badges|];
         && InProject(t'.projects, b, req.project)
         && Models.FromI64(b.result) == Some(req.result)
         && (b.changeNumber, b.buildType, b.url, b.archivePath, b.addedAt)
            == (req.changeNumber, req.buildType, req.url, req.archivePath, addedAt)
  {
    var (ps, pid) := Resolve(t.projects, req.project);
    var k :| 0 <= k < |ps| && ps[k] == ProjectRow(pid, req.project);
    Models.DecodeDiscriminant(req.result);
  }

  /** A submission keeps every invariant of the tables. */
  lemma SubmitConsistent(t: Snapshot, req: Models.CreateBadge, addedAt: int)
    requires Consistent(t)
    ensures Consistent(Submit(t, req, addedAt))
  {
    var (ps, pid) := Resolve(t.projects, req.project);
    ResolveSpec(t.projects, req.project);
    AppendOrdered(t.badges, NewBadgeRow(t.badges, req, addedAt, pid));
    SubmitReferences(t, req, addedAt);
  }

  /** A get-or-add on its own keeps every invariant of the tables. */
  lemma ResolveConsistent(t: Snapshot, name: string)
    requires Consistent(t)
    ensures Consistent(Snapshot(Resolve(t.projects, name).0, t.badges))
  {
    var ps := Resolve(t.projects, name).0;
    ResolveSpec(t.projects, name);
    forall i | 0 <= i < |t.badges| ensures ProjectExists(ps, t.badges[i].projectId) {
      var j :| 0 <= j < |t.projects| && t.projects[j].projectId == t.badges[i].projectId;
      assert ps[j] == t.projects[j];
    }
  }

  /** A row with the next rowid goes at the end of an ordered table. */
  lemma AppendOrdered(bs: seq<BadgeRow>, b: BadgeRow)
    requires BadgesInRowidOrder(bs) && b.id == NextBadgeId(bs)
    ensures BadgesInRowidOrder(bs + [b])
  {
    forall i | 0 <= i < |bs| ensures (bs + [b])[i].id < b.id {
      assert (bs + [b])[i] == bs[i];
    }
  }

  /** After a submission every badge still names an existing project. */
  lemma SubmitReferences(t: Snapshot, req: Models.CreateBadge, addedAt: int)
    requires Consistent(t)
    ensures BadgesHaveProjects(Submit(t, req, addedAt))
  {
    var (ps, pid) := Resolve(t.projects, req.project);
    ResolveSpec(t.projects, req.project);
    var t' := Submit(t, req, addedAt);
    var k :| 0 <= k < |ps| && ps[k] == ProjectRow(pid, req.project);
    forall i | 0 <= i < |t'.badges| ensures ProjectExists(ps, t'.badges[i].projectId) {
      if i < |t.badges| {
        var j :| 0 <= j < |t.projects| && t.projects[j].projectId == t.badges[i].projectId;
        assert ps[j] == t.projects[j];
      } else {
        assert t'.badges[i].projectId == ps[k].projectId;
      }
    }
  }

  /** Nothing is selected from rows none of which qualifies. */
  lemma {:induction false} SelectedNone(ps: seq<ProjectRow>, bs: seq<BadgeRow>, name: string, cursor: int)
    requires forall i :: 0 <= i < |bs| ==> !(bs[i].id > cursor && InProject(ps, bs[i], name))
    ensures Selected(ps, bs, name, cursor) == []
    decreases |bs|
  {
    if bs != [] {
      SelectedNone(ps, bs[1..], name, cursor);
    }
  }

  /** After a submission, no row that was already there lies after the
      project's previous latest id: the new project row, if any, has a fresh
      id that no existing badge names. */
  lemma NothingOldAfterLatest(t: Snapshot, req: Models.CreateBadge, addedAt: int)
    requires Consistent(t)
    ensures Selected(Submit(t, req, addedAt).projects, t.badges, req.project, LastBuildId(t, req.project)) == []
  {
    var (ps, pid) := Resolve(t.projects, req.project);
    ResolveSpec(t.projects, req.project);
    var cursor := LastBuildId(t, req.project);
    LastBuildIdIsMax(t, req.project);
    forall k | 0 <= k < |t.badges| && InProject(ps, t.badges[k], req.project)
      ensures t.badges[k].id <= cursor
    {
      var r := t.badges[k];
      var i :| 0 <= i < |ps| && ps[i].projectId == r.projectId && ps[i].project == req.project;
      assert ProjectExists(t.projects, r.projectId);
      if i < |t.projects| {
        assert ps[i] == t.projects[i];
      }
    }
    SelectedNone(ps, t.badges, req.project, cursor);
  }

  /** Reading from the project's previous latest id after a submission
      yields the new row alone, and the new row becomes the latest. */
  lemma SelectedAfterSubmit(t: Snapshot, req: Models.CreateBadge, addedAt: int)
    requires Consistent(t)
    ensures var t' := Submit(t, req, addedAt);
      && Selected(t'.projects, t'.badges, req.project, LastBuildId(t, req.project)) == [t'.badges[|t.badges|]]
      && LastBuildId(t', req.project) == t'.badges[|t.badges|].id
  {
    var t' := Submit(t, req, addedAt);
    var cursor := LastBuildId(t, req.project);
    SubmitRecords(t, req, addedAt);
    SubmitConsistent(t, req, addedAt);
    LastBuildIdIsMax(t, req.project);
    var row := t'.badges[|t.badges|];
    assert t'.badges == t.badges + [row];
    NothingOldAfterLatest(t, req, addedAt);
    SelectedAppend(t'.projects, t.badges, row, req.project, cursor);
    LastBuildIdIsMax(t', req.project);
  }

  /** The store: both tables, changed only by the two inserts. */
  class Database {
    var projects: seq<ProjectRow>
    var badges: seq<BadgeRow>

    ghost predicate Valid()
      reads this
    {
      InRowidOrder(Snapshot(projects, badges))
    }

    function State(): Snapshot
      reads this
    {
      Snapshot(projects, badges)
    }

    constructor ()
      ensures Valid() && Consistent(State()) && projects == [] && badges == []
    {
      projects, badges := [], [];
    }

    /** `INSERT INTO projects (project) VALUES (?)`, then `last_insert_rowid()`. */
    method InsertProject(name: string) returns (id: int)
      requires Valid()
      modifies this
      ensures Valid()
      ensures id == NextProjectId(old(projects))
      ensures projects == old(projects) + [ProjectRow(id, name)]
      ensures badges == old(badges)
    {
      id := NextProjectId(projects);
      projects := projects + [ProjectRow(id, name)];
    }

    /** `INSERT INTO badges (...) VALUES (...)`, then `last_insert_rowid()`. */
    method InsertBadge(changeNumber: int, addedAt: int, buildType: string, result: int,
                       url: string, projectId: int, archivePath: string) returns (id: int)
      requires Valid()
      modifies this
      ensures Valid()
      ensures id == NextBadgeId(old(badges))
      ensures badges == old(badges) + [BadgeRow(id, changeNumber, addedAt, buildType, result, url, projectId, archivePath)]
      ensures projects == old(projects)
    {
      id := NextBadgeId(badges);
      badges := badges + [BadgeRow(id, changeNumber, addedAt, buildType, result, url, projectId, archivePath)];
    }
  }
}
