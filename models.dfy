/**
 * The wire types of the metadata server: the badge result enum with its
 * fixed `u8` discriminants, the user vote enum, and the response records.
 * A timestamp is an opaque integer.
 */
module Models {
  import Wrappers
  import opened Bytes

  /** A build state. The discriminants are part of the wire format and of the
      `result` column, so they must never change. */
  datatype BadgeResult = Starting | Failure | Warning | Success | Skipped

  /** `result as u8`: the discriminant written to the database and the wire. */
  function Discriminant(r: BadgeResult): (code: u8)
    ensures code <= 4
  {
    match r
    case Starting => 0
    case Failure => 1
    case Warning => 2
    case Success => 3
    case Skipped => 4
  }

  /** The derived `FromPrimitive::from_i64`: the variant whose discriminant is
      `n`, and nothing for any other integer. */
  function FromI64(n: int): (r: Wrappers.Option<BadgeResult>)
    ensures r.Some? <==> 0 <= n <= 4
    ensures r.Some? ==> Discriminant(r.value) as int == n
  {
    if n == 0 then Wrappers.Some(Starting)
    else if n == 1 then Wrappers.Some(Failure)
    else if n == 2 then Wrappers.Some(Warning)
    else if n == 3 then Wrappers.Some(Success)
    else if n == 4 then Wrappers.Some(Skipped)
    else Wrappers.None
  }

  /** The five discriminants, one by one. */
  lemma DiscriminantsAreFixed()
    ensures Discriminant(Starting) == 0 && Discriminant(Failure) == 1
    ensures Discriminant(Warning) == 2 && Discriminant(Success) == 3
    ensures Discriminant(Skipped) == 4
  {
  }

  /** Decoding what was encoded gives back the variant. */
  lemma DecodeDiscriminant(r: BadgeResult)
    ensures FromI64(Discriminant(r) as int) == Wrappers.Some(r)
  {
  }

  /** No two variants share a code. */
  lemma DiscriminantInjective(a: BadgeResult, b: BadgeResult)
    requires Discriminant(a) == Discriminant(b)
    ensures a == b
  {
  }

  /** A user's vote on a changelist; serialized by variant name. */
  datatype UgsUserVote = None | CompileSuccess | CompileFailure | Good | Bad

  /** The variants in declaration order. */
  const Votes: seq<UgsUserVote> := [None, CompileSuccess, CompileFailure, Good, Bad]

  /** The position of a variant in declaration order. */
  function VoteIndex(v: UgsUserVote): (i: nat)
    ensures i < |Votes| && Votes[i] == v
  {
    match v
    case None => 0
    case CompileSuccess => 1
    case CompileFailure => 2
    case Good => 3
    case Bad => 4
  }

  /** The name serde writes for a vote. */
  function VoteName(v: UgsUserVote): string
  {
    match v
    case None => "None"
    case CompileSuccess => "CompileSuccess"
    case CompileFailure => "CompileFailure"
    case Good => "Good"
    case Bad => "Bad"
  }

  /** The vote serde reads from a name, if the name is one of the five. */
  function ParseVote(s: string): (r: Wrappers.Option<UgsUserVote>)
    ensures r.Some? ==> VoteName(r.value) == s
  {
    if s == "None" then Wrappers.Some(None)
    else if s == "CompileSuccess" then Wrappers.Some(CompileSuccess)
    else if s == "CompileFailure" then Wrappers.Some(CompileFailure)
    else if s == "Good" then Wrappers.Some(Good)
    else if s == "Bad" then Wrappers.Some(Bad)
    else Wrappers.None
  }

  /** Every vote reads back from its own name. */
  lemma ParseVoteName(v: UgsUserVote)
    ensures ParseVote(VoteName(v)) == Wrappers.Some(v)
  {
  }

  /** Exactly five variants: each appears once in declaration order. */
  lemma VotesAreFive(v: UgsUserVote)
    ensures |Votes| == 5
    ensures forall i, j :: 0 <= i < j < |Votes| ==> Votes[i] != Votes[j]
    ensures v in Votes
  {
  }

  /** `LatestData`: the newest ids the client may poll from. The `version`
      field is absent from the value the handlers build. */
  datatype LatestResponse = LatestResponse(lastEventId: int, lastCommentId: int, lastBuildId: int)

  /** A badge as the listing handlers return it. */
  datatype Badge = Badge(
    id: Wrappers.Option<int>,
    changeNumber: int,
    addedAt: int,
    buildType: string,
    result: BadgeResult,
    url: string,
    project: string,
    archivePath: string)

  /** The body of a badge submission. */
  datatype CreateBadge = CreateBadge(
    changeNumber: int,
    buildType: string,
    result: BadgeResult,
    url: string,
    project: string,
    archivePath: string)

  datatype UserData = UserData(
    user: string,
    syncTime: Wrappers.Option<int>,
    vote: Wrappers.Option<UgsUserVote>,
    comment: string,
    investigating: Wrappers.Option<bool>,
    starred: Wrappers.Option<bool>)

  datatype BadgeData = BadgeData(name: string, url: string, state: BadgeResult)

  /** The metadata response record: user data and badges of one changelist
      of one project. It is a response type only; no handler builds one. */
  datatype MetadataResponse = MetadataResponse(
    change: int,
    project: string,
    users: seq<UserData>,
    badges: seq<BadgeData>)

  /** Whether a record is the one for `project` at `change`. */
  function Matches(m: MetadataResponse, project: string, change: int): (b: bool)
    ensures b <==> (m.project, m.change) == (project, change)
  {
    m.project == project && m.change == change
  }

  /** `NonZeroI64::new`: the id when it is non-zero. */
  function NonZero(x: int): (r: Wrappers.Option<int>)
    ensures r.Some? <==> x != 0
    ensures r.Some? ==> r.value == x
  {
    if x != 0 then Wrappers.Some(x) else Wrappers.None
  }
}
