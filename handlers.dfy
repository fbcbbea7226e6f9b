/**
 * The badge handlers of `src/handlers.rs` over the in-memory tables.
 * A storage failure is an input: `Faults` says which statement of a write
 * fails, `readFails` whether a query does. Every failure becomes
 * `Err(StorageError)`, which the server answers with HTTP 500.
 */
module Handlers {
  import opened Wrappers
  import opened Models
  import opened Tables

  datatype AppError = StorageError

  /** Which storage statements of one request fail. */
  datatype Faults = Faults(lookupFails: bool, insertProjectFails: bool, insertBadgeFails: bool)

  /** Whether get-or-add fails for these faults: the lookup fails, or the
      name is new and its insert fails. */
  predicate ProjectStepFails(ps: seq<ProjectRow>, name: string, faults: Faults)
  {
    faults.lookupFails || (FindProject(ps, name).None? && faults.insertProjectFails)
  }

  /** `get_or_add_project`: the id of the project row with that name,
      inserting the row first when there is none. */
  method GetOrAddProject(db: Database, projectName: string, faults: Faults) returns (r: Result<int, AppError>)
    requires db.Valid()
    modifies db
    ensures db.Valid() && db.badges == old(db.badges)
    ensures r.Err? <==> ProjectStepFails(old(db.projects), projectName, faults)
    ensures r.Err? ==> db.projects == old(db.projects)
    ensures r.Ok? ==> (db.projects, r.value) == Resolve(old(db.projects), projectName)
    ensures Consistent(old(db.State())) ==> Consistent(db.State())
  {
    if Consistent(db.State()) {
      ResolveConsistent(db.State(), projectName);
    }
    if faults.lookupFails {
      return Err(StorageError);
    }
    var record := FindProject(db.projects, projectName);
    if record.Some? {
      return Ok(record.value);
    }
    if faults.insertProjectFails {
      return Err(StorageError);
    }
    var id := db.InsertProject(projectName);
    return Ok(id);
  }

  datatype LatestParams = LatestParams(project: string)

  /** `latest`: the newest badge id of the project; comments and events are
      not kept, so their ids are always 0. */
  function Latest(t: Snapshot, params: LatestParams, readFails: bool): (r: Result<LatestResponse, AppError>)
    ensures r.Err? <==> readFails
    ensures r.Ok? ==> r.value.lastCommentId == 0 && r.value.lastEventId == 0
    ensures r.Ok? ==> r.value.lastBuildId == LastBuildId(t, params.project)
  {
    if readFails then Err(StorageError)
    else Ok(LatestResponse(0, 0, LastBuildId(t, params.project)))
  }

  /** The latest build id a successful `latest` reports is the largest id
      among the project's badges, and 0 when it has none. */
  lemma LatestReportsMax(t: Snapshot, params: LatestParams)
    requires InRowidOrder(t)
    ensures var m := Latest(t, params, false).value.lastBuildId;
      && (m == 0 <==> forall i :: 0 <= i < |t.badges| ==> !InProject(t.projects, t.badges[i], params.project))
      && (m != 0 ==> exists i :: 0 <= i < |t.badges| && InProject(t.projects, t.badges[i], params.project) && t.badges[i].id == m)
      && (forall i :: 0 <= i < |t.badges| && InProject(t.projects, t.badges[i], params.project) ==> t.badges[i].id <= m)
  {
    LastBuildIdIsMax(t, params.project);
  }

  datatype BadgesParams = BadgesParams(project: string, lastBuildId: int)

  /** What `build_index` answers with (`badges`) and the ids it logs as bad
      rows (`logged`). */
  datatype Listing = Listing(badges: seq<Badge>, logged: seq<int>)

  /** Whether a row's stored result code names a `BadgeResult`. */
  predicate Decodes(row: BadgeRow)
  {
    FromI64(row.result).Some?
  }

  /** The badge a row with a valid result code stands for. */
  function Converted(row: BadgeRow, project: string): Badge
    requires Decodes(row)
  {
    Badge(NonZero(row.id), row.changeNumber, row.addedAt, row.buildType,
          FromI64(row.result).value, row.url, project, row.archivePath)
  }

  /** The row closure of the query: a badge, or the row id for the error
      message when the stored code does not decode. */
  function RowToBadge(row: BadgeRow, project: string): (r: Result<Badge, int>)
    ensures r.Ok? <==> FromI64(row.result).Some?
    ensures r.Err? ==> r.error == row.id
    ensures r.Ok? ==> Some(r.value.result) == FromI64(row.result) && r.value.id == NonZero(row.id)
    ensures r.Ok? ==> r.value.project == project && r.value.changeNumber == row.changeNumber
  {
    if Decodes(row) then Ok(Converted(row, project)) else Err(row.id)
  }

  function MapRows(rows: seq<BadgeRow>, project: string): (rs: seq<Result<Badge, int>>)
    ensures |rs| == |rows|
  {
    seq(|rows|, i requires 0 <= i < |rows| => RowToBadge(rows[i], project))
  }

  /** `partition(|r| r.is_ok())` followed by unwrapping both halves. */
  function Partition(rs: seq<Result<Badge, int>>): (p: (seq<Badge>, seq<int>))
    ensures |p.0| + |p.1| == |rs|
  {
    if rs == [] then ([], [])
    else
      var (oks, errs) := Partition(rs[1..]);
      match rs[0]
      case Ok(b) => ([b] + oks, errs)
      case Err(e) => (oks, [e] + errs)
  }

  /** `build_index`: the project's badges after the cursor, oldest first,
      without the rows whose result code does not decode. */
  function BuildIndex(t: Snapshot, params: BadgesParams, readFails: bool): (r: Result<Listing, AppError>)
    ensures r.Err? <==> readFails
  {
    if readFails then Err(StorageError)
    else
      var rows := Selected(t.projects, t.badges, params.project, params.lastBuildId);
      var (badges, errors) := Partition(MapRows(rows, params.project));
      Ok(Listing(badges, errors))
  }

  /** Reference definition: the rows whose code decodes, converted, in order. */
  function Kept(rows: seq<BadgeRow>, project: string): (bs: seq<Badge>)
    ensures forall b :: b in bs ==> exists row :: row in rows && Decodes(row) && b == Converted(row, project)
    ensures forall row :: row in rows && Decodes(row) ==> Converted(row, project) in bs
    decreases |rows|
  {
    if rows == [] then []
    else
      var tail := Kept(rows[1..], project);
      if Decodes(rows[0]) then [Converted(rows[0], project)] + tail else tail
  }

  /** Reference definition: the ids of the rows whose code does not decode. */
  function DroppedIds(rows: seq<BadgeRow>): (ids: seq<int>)
    ensures forall id :: id in ids <==> exists row :: row in rows && !Decodes(row) && row.id == id
    decreases |rows|
  {
    if rows == [] then []
    else
      var tail := DroppedIds(rows[1..]);
      if Decodes(rows[0]) then tail else [rows[0].id] + tail
  }

  /** The partition keeps exactly the decodable rows, in their order, and
      sets aside exactly the others. */
  lemma {:induction false} PartitionIsFilter(rows: seq<BadgeRow>, project: string)
    ensures Partition(MapRows(rows, project)) == (Kept(rows, project), DroppedIds(rows))
    decreases |rows|
  {
    if rows != [] {
      assert MapRows(rows, project)[1..] == MapRows(rows[1..], project);
      PartitionIsFilter(rows[1..], project);
    }
  }

  /** Every badge carries an id, and the ids strictly increase. */
  ghost predicate IdsAscending(bs: seq<Badge>)
  {
    && (forall i :: 0 <= i < |bs| ==> bs[i].id.Some?)
    && (forall i, j :: 0 <= i < j < |bs| ==> bs[i].id.value < bs[j].id.value)
  }

  lemma ConsAscending(b: Badge, bs: seq<Badge>)
    requires IdsAscending(bs) && b.id.Some?
    requires forall x :: x in bs ==> b.id.value < x.id.value
    ensures IdsAscending([b] + bs)
  {
    var cs := [b] + bs;
    forall i, j | 0 <= i < j < |cs| ensures cs[i].id.value < cs[j].id.value {
      assert cs[j] == bs[j - 1] && bs[j - 1] in bs;
    }
  }

  /** Conversion keeps the id order of the rows it keeps. */
  lemma {:induction false} KeptAscending(rows: seq<BadgeRow>, project: string)
    requires BadgesInRowidOrder(rows)
    ensures IdsAscending(Kept(rows, project))
    decreases |rows|
  {
    if rows != [] {
      KeptAscending(rows[1..], project);
      var tail := Kept(rows[1..], project);
      if Decodes(rows[0]) {
        forall b | b in tail ensures rows[0].id < b.id.value {
          var row :| row in rows[1..] && Decodes(row) && b == Converted(row, project);
          var k :| 0 <= k < |rows[1..]| && rows[1..][k] == row;
          assert rows[k + 1] == row;
        }
        ConsAscending(Converted(rows[0], project), tail);
      }
    }
  }

  /** A successful `build_index` returns exactly the project's badges after
      the cursor whose stored code decodes, each with its stored fields and
      the decoded result, never a default in place of a bad code. */
  lemma BuildIndexKeepsDecodable(t: Snapshot, params: BadgesParams)
    ensures var listing := BuildIndex(t, params, false).value;
      && (forall b :: b in listing.badges ==>
            exists row :: row in t.badges && row.id > params.lastBuildId
              && InProject(t.projects, row, params.project)
              && FromI64(row.result) == Some(b.result) && b == Converted(row, params.project))
      && (forall row :: row in t.badges && row.id > params.lastBuildId
              && InProject(t.projects, row, params.project) && Decodes(row)
            ==> Converted(row, params.project) in listing.badges)
  {
    var rows := Selected(t.projects, t.badges, params.project, params.lastBuildId);
    PartitionIsFilter(rows, params.project);
  }

  /** A successful `build_index` lists its badges in strictly ascending id
      order. */
  lemma BuildIndexAscending(t: Snapshot, params: BadgesParams)
    requires InRowidOrder(t)
    ensures IdsAscending(BuildIndex(t, params, false).value.badges)
  {
    var rows := Selected(t.projects, t.badges, params.project, params.lastBuildId);
    PartitionIsFilter(rows, params.project);
    SelectedAscending(t.projects, t.badges, params.project, params.lastBuildId);
    KeptAscending(rows, params.project);
  }

  /** A successful `build_index` logs exactly the ids of the project's rows
      after the cursor whose stored code does not decode. */
  lemma BuildIndexLogsDropped(t: Snapshot, params: BadgesParams)
    ensures forall id :: id in BuildIndex(t, params, false).value.logged <==>
      exists row :: row in t.badges && row.id > params.lastBuildId
        && InProject(t.projects, row, params.project) && !Decodes(row) && row.id == id
  {
    var rows := Selected(t.projects, t.badges, params.project, params.lastBuildId);
    PartitionIsFilter(rows, params.project);
  }

  /** Submitting a badge and then listing its project from the previous
      latest id gives back exactly that badge, with the submitted result and
      fields; `latest` then reports the new badge's id. */
  lemma ListAfterCreate(t: Snapshot, req: CreateBadge, addedAt: int)
    requires Consistent(t)
    ensures var t' := Submit(t, req, addedAt);
      var listing := BuildIndex(t', BadgesParams(req.project, LastBuildId(t, req.project)), false).value;
      && |listing.badges| == 1 && listing.logged == []
      && listing.badges[0].id == Some(t'.badges[|t.badges|].id)
      && listing.badges[0].result == req.result
      && listing.badges[0].project == req.project
      && (listing.badges[0].changeNumber, listing.badges[0].buildType, listing.badges[0].url,
          listing.badges[0].archivePath, listing.badges[0].addedAt)
         == (req.changeNumber, req.buildType, req.url, req.archivePath, addedAt)
      && LastBuildId(t', req.project) == t'.badges[|t.badges|].id
  {
    var t' := Submit(t, req, addedAt);
    SubmitRecords(t, req, addedAt);
    SelectedAfterSubmit(t, req, addedAt);
    var row := t'.badges[|t.badges|];
    ListOne(row, req.project);
  }

  /** One decodable row lists as its badge, with nothing logged. */
  lemma ListOne(row: BadgeRow, project: string)
    requires Decodes(row)
    ensures Partition(MapRows([row], project)).0 == [Converted(row, project)]
    ensures Partition(MapRows([row], project)).1 == []
  {
    var rs := MapRows([row], project);
    var none: seq<Result<Badge, int>> := [];
    assert rs == [Ok(Converted(row, project))];
    assert rs[1..] == none;
    assert Partition(none) == ([], []);
  }

  /** `build_create`: get-or-add the project, then insert one badge row
      carrying the result's discriminant. A failing project step returns
      before any badge is written; a failing badge insert leaves the badges
      as they were (a project row it created stays). */
  method BuildCreate(db: Database, badge: CreateBadge, addedAt: int, faults: Faults) returns (r: Result<(), AppError>)
    requires db.Valid()
    modifies db
    ensures db.Valid()
    ensures ProjectStepFails(old(db.projects), badge.project, faults) ==>
      r.Err? && db.State() == old(db.State())
    ensures !ProjectStepFails(old(db.projects), badge.project, faults) && faults.insertBadgeFails ==>
      r.Err? && db.projects == Resolve(old(db.projects), badge.project).0 && db.badges == old(db.badges)
    ensures !ProjectStepFails(old(db.projects), badge.project, faults) && !faults.insertBadgeFails ==>
      r.Ok? && db.State() == Submit(old(db.State()), badge, addedAt)
    ensures Consistent(old(db.State())) ==> Consistent(db.State())
  {
    if Consistent(db.State()) {
      ResolveConsistent(db.State(), badge.project);
      SubmitConsistent(db.State(), badge, addedAt);
    }
    var projectId := GetOrAddProject(db, badge.project, faults);
    if projectId.Err? {
      return Err(projectId.error);
    }
    var result := Discriminant(badge.result);
    if faults.insertBadgeFails {
      return Err(StorageError);
    }
    var _ := db.InsertBadge(badge.changeNumber, addedAt, badge.buildType, result as int,
                            badge.url, projectId.value, badge.archivePath);
    return Ok(());
  }
}
