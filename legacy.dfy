/**
 * The older handlers of `src/main.rs`. They run the same queries and
 * inserts as `Handlers`, but a storage failure panics (`unwrap`) instead of
 * becoming an error response, and the badge listing reports every badge as
 * a success, whatever result code is stored.
 */
module LegacyMain {
  import opened Wrappers
  import Models
  import opened Tables
  import Handlers

  /** The outcome of a handler that unwraps: a value, or a panic. */
  datatype Panicking<T> = Returned(value: T) | Panicked

  /** `get_or_add_project` of `main.rs`: get-or-insert as in `Handlers`; a
      failing lookup or insert panics and writes nothing. */
  method GetOrAddProject(db: Database, projectName: string, faults: Handlers.Faults) returns (r: Panicking<int>)
    requires db.Valid()
    modifies db
    ensures db.Valid() && db.badges == old(db.badges)
    ensures r.Panicked? <==> Handlers.ProjectStepFails(old(db.projects), projectName, faults)
    ensures r.Panicked? ==> db.projects == old(db.projects)
    ensures r.Returned? ==> (db.projects, r.value) == Resolve(old(db.projects), projectName)
    ensures Consistent(old(db.State())) ==> Consistent(db.State())
  {
    if Consistent(db.State()) {
      ResolveConsistent(db.State(), projectName);
    }
    if faults.lookupFails {
      return Panicked;
    }
    var record := FindProject(db.projects, projectName);
    if record.Some? {
      return Returned(record.value);
    }
    if faults.insertProjectFails {
      return Panicked;
    }
    var id := db.InsertProject(projectName);
    return Returned(id);
  }

  /** `latest` of `main.rs`: the answer of the current handler, or a panic
      where that handler reports a storage error. */
  function Latest(t: Snapshot, project: string, readFails: bool): (r: Panicking<Models.LatestResponse>)
    ensures r.Panicked? <==> readFails
    ensures r.Returned? ==> r.value == Handlers.Latest(t, Handlers.LatestParams(project), false).value
  {
    if readFails then Panicked
    else Returned(Models.LatestResponse(0, 0, LastBuildId(t, project)))
  }

  /** The row closure of `badges` in `main.rs`: the stored fields, with the
      result set to `Success`. */
  function AsSuccess(row: BadgeRow, project: string): (b: Models.Badge)
    ensures b.result == Models.Success
    ensures Handlers.Decodes(row) ==> b == Handlers.Converted(row, project).(result := Models.Success)
  {
    Models.Badge(Models.NonZero(row.id), row.changeNumber, row.addedAt, row.buildType,
                 Models.Success, row.url, project, row.archivePath)
  }

  /** `badges` of `main.rs`: one badge per selected row, in order. */
  function Badges(t: Snapshot, params: Handlers.BadgesParams, readFails: bool): (r: Panicking<seq<Models.Badge>>)
    ensures r.Panicked? <==> readFails
    ensures r.Returned? ==> |r.value| == |Selected(t.projects, t.badges, params.project, params.lastBuildId)|
  {
    if readFails then Panicked
    else
      var rows := Selected(t.projects, t.badges, params.project, params.lastBuildId);
      Returned(seq(|rows|, i requires 0 <= i < |rows| => AsSuccess(rows[i], params.project)))
  }

  /** The listing of `main.rs` drops no row: it holds a badge for every row
      of the project after the cursor and for nothing else, in strictly
      ascending id order, each carrying its stored fields and the result
      `Success`. */
  lemma BadgesKeepsEveryRow(t: Snapshot, params: Handlers.BadgesParams)
    requires InRowidOrder(t)
    ensures var bs := Badges(t, params, false).value;
      && Handlers.IdsAscending(bs)
      && (forall b :: b in bs ==> b.result == Models.Success)
      && (forall b :: b in bs ==>
            (exists row :: row in t.badges && row.id > params.lastBuildId
               && InProject(t.projects, row, params.project) && b == AsSuccess(row, params.project)))
      && (forall row :: row in t.badges && row.id > params.lastBuildId && InProject(t.projects, row, params.project)
            ==> AsSuccess(row, params.project) in bs)
  {
    ListedAscending(t, params);
    ListedRowsExist(t, params);
    ListedEveryRow(t, params);
  }

  lemma ListedAscending(t: Snapshot, params: Handlers.BadgesParams)
    requires InRowidOrder(t)
    ensures Handlers.IdsAscending(Badges(t, params, false).value)
    ensures forall b :: b in Badges(t, params, false).value ==> b.result == Models.Success
  {
    var rows := Selected(t.projects, t.badges, params.project, params.lastBuildId);
    var bs := Badges(t, params, false).value;
    SelectedAscending(t.projects, t.badges, params.project, params.lastBuildId);
    assert forall i :: 0 <= i < |bs| ==> bs[i] == AsSuccess(rows[i], params.project);
  }

  lemma ListedRowsExist(t: Snapshot, params: Handlers.BadgesParams)
    ensures forall b :: b in Badges(t, params, false).value ==>
      (exists row :: row in t.badges && row.id > params.lastBuildId
         && InProject(t.projects, row, params.project) && b == AsSuccess(row, params.project))
  {
    var rows := Selected(t.projects, t.badges, params.project, params.lastBuildId);
    var bs := Badges(t, params, false).value;
    forall b | b in bs
      ensures (exists row :: row in t.badges && row.id > params.lastBuildId
                 && InProject(t.projects, row, params.project) && b == AsSuccess(row, params.project))
    {
      var i :| 0 <= i < |bs| && bs[i] == b;
      assert rows[i] in rows;
    }
  }

  lemma ListedEveryRow(t: Snapshot, params: Handlers.BadgesParams)
    ensures forall row :: (row in t.badges && row.id > params.lastBuildId && InProject(t.projects, row, params.project)
      ==> AsSuccess(row, params.project) in Badges(t, params, false).value)
  {
    var rows := Selected(t.projects, t.badges, params.project, params.lastBuildId);
    var bs := Badges(t, params, false).value;
    forall row | row in t.badges && row.id > params.lastBuildId && InProject(t.projects, row, params.project)
      ensures AsSuccess(row, params.project) in bs
    {
      var i :| 0 <= i < |rows| && rows[i] == row;
      assert bs[i] == AsSuccess(row, params.project);
    }
  }

  /** A failed build is listed by `main.rs` as a success, where the current
      handler lists it as a failure. */
  lemma FailureReportedAsSuccess()
    ensures var t := Snapshot([ProjectRow(1, "game")],
                              [BadgeRow(1, 100, 0, "Editor", 1, "https://ci/1", 1, "")]);
      var params := Handlers.BadgesParams("game", 0);
      && Badges(t, params, false)
         == Returned([Models.Badge(Some(1), 100, 0, "Editor", Models.Success, "https://ci/1", "game", "")])
      && Handlers.BuildIndex(t, params, false)
         == Ok(Handlers.Listing([Models.Badge(Some(1), 100, 0, "Editor", Models.Failure, "https://ci/1", "game", "")], []))
  {
    var t := Snapshot([ProjectRow(1, "game")],
                      [BadgeRow(1, 100, 0, "Editor", 1, "https://ci/1", 1, "")]);
    var row := t.badges[0];
    assert t.projects[0].projectId == row.projectId && t.projects[0].project == "game";
    assert InProject(t.projects, row, "game");
    assert t.badges[1..] == [];
    var rows := Selected(t.projects, t.badges, "game", 0);
    assert rows == [row];
    assert Models.FromI64(1) == Some(Models.Failure);
    var success := Models.Badge(Some(1), 100, 0, "Editor", Models.Success, "https://ci/1", "game", "");
    var failure := success.(result := Models.Failure);
    assert AsSuccess(row, "game") == success;
    var bs := Badges(t, Handlers.BadgesParams("game", 0), false).value;
    assert bs == [success];
    assert Handlers.Converted(row, "game") == failure;
    assert Handlers.MapRows(rows, "game") == [Ok(failure)];
    var results: seq<Result<Models.Badge, int>> := [Ok(failure)];
    var none: seq<Result<Models.Badge, int>> := [];
    assert results[1..] == none;
    assert Handlers.Partition(none) == ([], []);
    assert Handlers.Partition(results).1 == [];
    assert Handlers.Partition(results).0 == [failure];
  }

  /** `add_badge` of `main.rs`: get-or-add the project, then insert the
      badge row; a failing statement panics, leaving behind what was written
      before it. */
  method AddBadge(db: Database, badge: Models.CreateBadge, addedAt: int, faults: Handlers.Faults)
    returns (r: Panicking<()>)
    requires db.Valid()
    modifies db
    ensures db.Valid()
    ensures Handlers.ProjectStepFails(old(db.projects), badge.project, faults) ==>
      r.Panicked? && db.State() == old(db.State())
    ensures !Handlers.ProjectStepFails(old(db.projects), badge.project, faults) && faults.insertBadgeFails ==>
      r.Panicked? && db.projects == Resolve(old(db.projects), badge.project).0 && db.badges == old(db.badges)
    ensures !Handlers.ProjectStepFails(old(db.projects), badge.project, faults) && !faults.insertBadgeFails ==>
      r.Returned? && db.State() == Submit(old(db.State()), badge, addedAt)
    ensures Consistent(old(db.State())) ==> Consistent(db.State())
  {
    if Consistent(db.State()) {
      ResolveConsistent(db.State(), badge.project);
      SubmitConsistent(db.State(), badge, addedAt);
    }
    var projectId := GetOrAddProject(db, badge.project, faults);
    if projectId.Panicked? {
      return Panicked;
    }
    var result := Models.Discriminant(badge.result);
    if faults.insertBadgeFails {
      return Panicked;
    }
    var _ := db.InsertBadge(badge.changeNumber, addedAt, badge.buildType, result as int,
                            badge.url, projectId.value, badge.archivePath);
    return Returned(());
  }
}
