/**
 * The binary `src/bin/rugs_metadata_server.rs`: the HTTP Basic gate in front
 * of the routes (RFC 7617, section 2), the path-lowercasing rewrite, and its
 * own copies of the badge handlers, which behave as those of `Handlers`.
 */
module MetadataServer {
  import opened Wrappers
  import opened Bytes
  import Base64
  import Utf8
  import Models
  import opened Tables
  import Handlers

  // ---------------------------------------------------------------------
  // The Authorization gate
  // ---------------------------------------------------------------------

  /** The bytes `HeaderValue::to_str` accepts: visible ASCII and tab. */
  predicate VisibleAscii(b: u8)
  {
    32 <= b < 127 || b == 9
  }

  /** `HeaderValue::to_str`: the header as text, when every byte is visible
      ASCII; each character is the byte's value. */
  function HeaderToStr(h: seq<u8>): (r: Option<string>)
    ensures r.Some? <==> forall i :: 0 <= i < |h| ==> VisibleAscii(h[i])
    ensures r.Some? ==> |r.value| == |h| && forall i :: 0 <= i < |h| ==> r.value[i] as int == h[i] as int
  {
    if forall i :: 0 <= i < |h| ==> VisibleAscii(h[i]) then
      Some(seq(|h|, i requires 0 <= i < |h| => h[i] as int as char))
    else None
  }

  /** The bytes of a text whose characters all fit in one byte. */
  function Latin1Bytes(s: string): (bs: seq<u8>)
    requires forall i :: 0 <= i < |s| ==> s[i] as int < 0x100
    ensures |bs| == |s| && forall i :: 0 <= i < |s| ==> bs[i] as int == s[i] as int
  {
    seq(|s|, i requires 0 <= i < |s| => s[i] as int as u8)
  }

  /** `str::strip_prefix`: what follows the prefix, if the text starts with it. */
  function StripPrefix(s: string, prefix: string): (r: Option<string>)
    ensures r.Some? <==> prefix <= s
    ensures r.Some? ==> s == prefix + r.value
  {
    if prefix <= s then Some(s[|prefix|..]) else None
  }

  /** The authentication scheme the gate accepts. */
  const BasicScheme: string := "Basic "

  /** The credential an Authorization header carries: the header as text,
      without the `Basic ` prefix, base64-decoded, as UTF-8. Any step that
      fails leaves no credential. */
  function Credential(h: seq<u8>): (r: Option<string>)
    ensures r.Some? ==> forall i :: 0 <= i < |h| ==> VisibleAscii(h[i])
    ensures r.Some? ==> |BasicScheme| <= |h| && forall i :: 0 <= i < |BasicScheme| ==> h[i] as int == BasicScheme[i] as int
  {
    match HeaderToStr(h)
    case None => None
    case Some(text) =>
      match StripPrefix(text, BasicScheme)
      case None => None
      case Some(encoded) =>
        match Base64.Decode(encoded)
        case None => None
        case Some(bytes) => Utf8.Decode(bytes)
  }

  /** The canonical Basic header for a credential. */
  function BasicHeader(credential: string): (h: seq<u8>)
  {
    var text := BasicScheme + Base64.Encode(Utf8.Encode(credential));
    assert forall i :: 0 <= i < |text| ==> text[i] as int < 0x100 by {
      var e := Base64.Encode(Utf8.Encode(credential));
      Base64.EncodeAlphabet(Utf8.Encode(credential));
      forall i | 0 <= i < |text| ensures text[i] as int < 0x100 {
        if i >= |BasicScheme| {
          assert text[i] == e[i - |BasicScheme|];
        }
      }
    }
    Latin1Bytes(text)
  }

  /** The canonical header carries its credential. */
  lemma CredentialOfBasicHeader(credential: string)
    ensures Credential(BasicHeader(credential)) == Some(credential)
  {
    var bytes := Utf8.Encode(credential);
    var e := Base64.Encode(bytes);
    BasicHeaderText(credential);
    assert (BasicScheme + e)[|BasicScheme|..] == e;
    Base64.DecodeEncode(bytes);
    Utf8.DecodeEncode(credential);
  }

  /** The canonical header reads as text: the scheme and the encoding. */
  lemma BasicHeaderText(credential: string)
    ensures HeaderToStr(BasicHeader(credential)) == Some(BasicScheme + Base64.Encode(Utf8.Encode(credential)))
  {
    var bytes := Utf8.Encode(credential);
    var e := Base64.Encode(bytes);
    var text := BasicScheme + e;
    var h := BasicHeader(credential);
    Base64.EncodeAlphabet(bytes);
    forall i | 0 <= i < |h| ensures VisibleAscii(h[i]) {
      if i >= |BasicScheme| {
        assert text[i] == e[i - |BasicScheme|];
      }
    }
    var t := HeaderToStr(h).value;
    assert t == text by {
      forall i | 0 <= i < |t| ensures t[i] == text[i] {
        assert t[i] as int == text[i] as int;
      }
    }
  }

  /** Only the canonical header carries a credential: a header from which a
      credential is read is exactly the Basic header for it. */
  lemma CredentialIsCanonical(h: seq<u8>)
    requires Credential(h).Some?
    ensures h == BasicHeader(Credential(h).value)
  {
    var text := HeaderToStr(h).value;
    var e := StripPrefix(text, BasicScheme).value;
    var bytes := Base64.Decode(e).value;
    var credential := Utf8.Decode(bytes).value;
    Base64.EncodeDecode(e);
    Utf8.EncodeDecode(bytes);
    assert BasicScheme + Base64.Encode(Utf8.Encode(credential)) == text;
    var g := BasicHeader(credential);
    forall i | 0 <= i < |h| ensures g[i] == h[i] {
      assert g[i] as int == text[i] as int == h[i] as int;
    }
  }

  /** What the middleware does with a request. */
  datatype AuthDecision = Forward | Unauthorized

  /** `auth`: an empty requirement lets every request through; otherwise the
      request needs an Authorization header whose Basic credential equals the
      requirement, and is refused with 401 when the header is missing, not
      Basic, not base64, not UTF-8, or carries another credential. */
  function Auth(requiredAuth: string, header: Option<seq<u8>>): (d: AuthDecision)
    ensures requiredAuth == [] ==> d == Forward
    ensures requiredAuth != [] && header.None? ==> d == Unauthorized
    ensures requiredAuth != [] && header.Some? && Credential(header.value).None? ==> d == Unauthorized
  {
    if requiredAuth == [] then Forward
    else match header
      case None => Unauthorized
      case Some(h) =>
        match Credential(h)
        case Some(credential) => if credential == requiredAuth then Forward else Unauthorized
        case None => Unauthorized
  }

  /** With a non-empty requirement, a request passes the gate exactly when
      its Authorization header is the Basic header for the requirement. */
  lemma AuthAcceptsExactly(requiredAuth: string, h: seq<u8>)
    requires requiredAuth != []
    ensures Auth(requiredAuth, Some(h)) == Forward <==> h == BasicHeader(requiredAuth)
  {
    if Credential(h) == Some(requiredAuth) {
      CredentialIsCanonical(h);
    }
    if h == BasicHeader(requiredAuth) {
      CredentialOfBasicHeader(requiredAuth);
    }
  }

  // ---------------------------------------------------------------------
  // The URI rewrite
  // ---------------------------------------------------------------------

  /** The path and query of a URI; the path of a parsed one has no '?'. */
  datatype PathAndQuery = PathAndQuery(path: string, query: Option<string>)

  datatype Uri = Uri(scheme: Option<string>, authority: Option<string>, pathAndQuery: Option<PathAndQuery>)

  /** A URI as the parser produces it: the first '?' ends the path. */
  predicate WellFormed(u: Uri)
  {
    u.pathAndQuery.Some? ==> '?' !in u.pathAndQuery.value.path
  }

  /** The text of a path and query, `path` or `path?query`. */
  function Text(pq: PathAndQuery): string
  {
    match pq.query
    case None => pq.path
    case Some(q) => pq.path + "?" + q
  }

  /** Parsing a path-and-query text: the path runs up to the first '?', the
      query is everything after it. */
  function ParsePathAndQuery(s: string): (pq: PathAndQuery)
    ensures '?' !in pq.path
    ensures Text(pq) == s
    decreases |s|
  {
    if s == [] then PathAndQuery("", None)
    else if s[0] == '?' then PathAndQuery("", Some(s[1..]))
    else
      var rest := ParsePathAndQuery(s[1..]);
      PathAndQuery([s[0]] + rest.path, rest.query)
  }

  /** Parsing the text of a parsed path and query gives it back. */
  lemma {:induction false} ParseText(pq: PathAndQuery)
    requires '?' !in pq.path
    ensures ParsePathAndQuery(Text(pq)) == pq
    decreases |pq.path|
  {
    if pq.path != [] {
      var c, tail := pq.path[0], PathAndQuery(pq.path[1..], pq.query);
      assert [c] + tail.path == pq.path;
      TextCons(c, tail);
      ParseText(tail);
      ParseCons(c, Text(tail));
    } else if pq.query.Some? {
      assert Text(pq)[1..] == pq.query.value;
    }
  }

  /** A leading path character is a leading text character. */
  lemma TextCons(c: char, pq: PathAndQuery)
    ensures Text(PathAndQuery([c] + pq.path, pq.query)) == [c] + Text(pq)
  {
  }

  /** A leading character other than '?' belongs to the path. */
  lemma ParseCons(c: char, s: string)
    requires c != '?'
    ensures ParsePathAndQuery([c] + s)
      == PathAndQuery([c] + ParsePathAndQuery(s).path, ParsePathAndQuery(s).query)
  {
    assert ([c] + s)[1..] == s;
  }

  predicate IsAsciiUpper(c: char)
  {
    'A' <= c <= 'Z'
  }

  /** ASCII lowercasing of one character. */
  function Lower(c: char): char
  {
    if IsAsciiUpper(c) then (c as int + 32) as char else c
  }

  /** `str::to_lowercase`, restricted to ASCII letters. */
  function LowerStr(s: string): string
  {
    seq(|s|, i requires 0 <= i < |s| => Lower(s[i]))
  }

  /** Two texts that differ at most in the case of ASCII letters. */
  predicate EqualIgnoringCase(a: string, b: string)
  {
    |a| == |b| && forall i :: 0 <= i < |a| ==> Lower(a[i]) == Lower(b[i])
  }

  /** The URI `lowercase_uri` builds: scheme and authority as they were, the
      path lowercased, the query as it was. */
  function Lowercased(u: Uri): (v: Uri)
    ensures v.scheme == u.scheme && v.authority == u.authority
    ensures v.pathAndQuery.Some? <==> u.pathAndQuery.Some?
    ensures v.pathAndQuery.Some? ==>
      |v.pathAndQuery.value.path| == |u.pathAndQuery.value.path| && v.pathAndQuery.value.query == u.pathAndQuery.value.query
  {
    Uri(u.scheme, u.authority,
        match u.pathAndQuery
        case None => None
        case Some(pq) => Some(PathAndQuery(LowerStr(pq.path), pq.query)))
  }

  /** The rewritten URI keeps scheme, authority and query, has no upper-case
      ASCII letter in its path, and its path differs from the old one only
      in letter case. */
  lemma LowercasedKeeps(u: Uri)
    requires WellFormed(u)
    ensures var v := Lowercased(u);
      && WellFormed(v)
      && v.scheme == u.scheme && v.authority == u.authority
      && v.pathAndQuery.Some? == u.pathAndQuery.Some?
      && (v.pathAndQuery.Some? ==>
            && v.pathAndQuery.value.query == u.pathAndQuery.value.query
            && EqualIgnoringCase(v.pathAndQuery.value.path, u.pathAndQuery.value.path)
            && forall i :: 0 <= i < |v.pathAndQuery.value.path| ==> !IsAsciiUpper(v.pathAndQuery.value.path[i]))
  {
  }

  /** Rewriting twice is rewriting once. */
  lemma LowercasedIdempotent(u: Uri)
    ensures Lowercased(Lowercased(u)) == Lowercased(u)
  {
    if u.pathAndQuery.Some? {
      var p := LowerStr(u.pathAndQuery.value.path);
      assert LowerStr(p) == p;
    }
  }

  /** Two URIs that agree but for the letter case of their paths are
      rewritten to the same URI, and only those. */
  lemma LowercasedMerges(u: Uri, path1: string, path2: string, query: Option<string>)
    ensures Lowercased(u.(pathAndQuery := Some(PathAndQuery(path1, query))))
         == Lowercased(u.(pathAndQuery := Some(PathAndQuery(path2, query))))
        <==> EqualIgnoringCase(path1, path2)
  {
    if EqualIgnoringCase(path1, path2) {
      assert LowerStr(path1) == LowerStr(path2);
    }
    if LowerStr(path1) == LowerStr(path2) {
      forall i | 0 <= i < |path1| ensures Lower(path1[i]) == Lower(path2[i]) {
        assert LowerStr(path1)[i] == LowerStr(path2)[i];
      }
    }
  }

  /** A request whose URI the middleware may replace. */
  class Request {
    var uri: Uri

    constructor (uri: Uri)
      ensures this.uri == uri
    {
      this.uri := uri;
    }
  }

  /** `lowercase_uri`: rebuild the URI part by part, the path and query from
      the text `lowercase(path)` or `lowercase(path) + "?" + query`, and
      store it in the request. */
  method LowercaseUri(req: Request)
    requires WellFormed(req.uri)
    modifies req
    ensures req.uri == Lowercased(old(req.uri))
  {
    var builder := Uri(None, None, None);
    if req.uri.scheme.Some? {
      builder := builder.(scheme := req.uri.scheme);
    }
    if req.uri.authority.Some? {
      builder := builder.(authority := req.uri.authority);
    }
    if req.uri.pathAndQuery.Some? {
      var pq := req.uri.pathAndQuery.value;
      var text := if pq.query.Some? then LowerStr(pq.path) + "?" + pq.query.value else LowerStr(pq.path);
      var lowered := PathAndQuery(LowerStr(pq.path), pq.query);
      LowercasedKeeps(req.uri);
      ParseText(lowered);
      assert text == Text(lowered);
      builder := builder.(pathAndQuery := Some(ParsePathAndQuery(text)));
    }
    req.uri := builder;
  }

  // ---------------------------------------------------------------------
  // The handler copies
  // ---------------------------------------------------------------------

  /** `latest` of this binary: the handler of `Handlers`. On a consistent
      store its build id is the project's largest badge id, 0 with none. */
  function Latest(t: Snapshot, project: string, readFails: bool): (r: Result<Models.LatestResponse, Handlers.AppError>)
    ensures r.Err? <==> readFails
    ensures r.Ok? ==> r.value.lastCommentId == 0 && r.value.lastEventId == 0
    ensures r.Ok? && InRowidOrder(t) ==>
      && (r.value.lastBuildId == 0 <==> forall i :: 0 <= i < |t.badges| ==> !InProject(t.projects, t.badges[i], project))
      && (r.value.lastBuildId != 0 ==>
            exists i :: 0 <= i < |t.badges| && InProject(t.projects, t.badges[i], project) && t.badges[i].id == r.value.lastBuildId)
      && (forall i :: 0 <= i < |t.badges| && InProject(t.projects, t.badges[i], project) ==> t.badges[i].id <= r.value.lastBuildId)
  {
    LatestIsMaxWhenOrdered(t, project);
    Handlers.Latest(t, Handlers.LatestParams(project), readFails)
  }

  lemma LatestIsMaxWhenOrdered(t: Snapshot, project: string)
    ensures InRowidOrder(t) ==>
      var m := LastBuildId(t, project);
      && (m == 0 <==> forall i :: 0 <= i < |t.badges| ==> !InProject(t.projects, t.badges[i], project))
      && (m != 0 ==> exists i :: 0 <= i < |t.badges| && InProject(t.projects, t.badges[i], project) && t.badges[i].id == m)
      && (forall i :: 0 <= i < |t.badges| && InProject(t.projects, t.badges[i], project) ==> t.badges[i].id <= m)
  {
    if InRowidOrder(t) {
      LastBuildIdIsMax(t, project);
    }
  }

  /** `badges` of this binary: the project's rows after the cursor with a
      decodable result, converted in order, and the ids of the others. */
  function Badges(t: Snapshot, params: Handlers.BadgesParams, readFails: bool): (r: Result<Handlers.Listing, Handlers.AppError>)
    ensures r.Err? <==> readFails
    ensures r.Ok? ==>
      var rows := Selected(t.projects, t.badges, params.project, params.lastBuildId);
      r.value == Handlers.Listing(Handlers.Kept(rows, params.project), Handlers.DroppedIds(rows))
  {
    var rows := Selected(t.projects, t.badges, params.project, params.lastBuildId);
    Handlers.PartitionIsFilter(rows, params.project);
    Handlers.BuildIndex(t, params, readFails)
  }

  /** `get_or_add_project` of this binary. */
  method GetOrAddProject(db: Database, projectName: string, faults: Handlers.Faults)
    returns (r: Result<int, Handlers.AppError>)
    requires db.Valid()
    modifies db
    ensures db.Valid() && db.badges == old(db.badges)
    ensures r.Err? <==> Handlers.ProjectStepFails(old(db.projects), projectName, faults)
    ensures r.Err? ==> db.projects == old(db.projects)
    ensures r.Ok? ==> (db.projects, r.value) == Resolve(old(db.projects), projectName)
    ensures Consistent(old(db.State())) ==> Consistent(db.State())
  {
    r := Handlers.GetOrAddProject(db, projectName, faults);
  }

  /** `add_badge` of this binary. */
  method AddBadge(db: Database, badge: Models.CreateBadge, addedAt: int, faults: Handlers.Faults)
    returns (r: Result<(), Handlers.AppError>)
    requires db.Valid()
    modifies db
    ensures db.Valid()
    ensures Handlers.ProjectStepFails(old(db.projects), badge.project, faults) ==>
      r.Err? && db.State() == old(db.State())
    ensures !Handlers.ProjectStepFails(old(db.projects), badge.project, faults) && faults.insertBadgeFails ==>
      r.Err? && db.projects == Resolve(old(db.projects), badge.project).0 && db.badges == old(db.badges)
    ensures !Handlers.ProjectStepFails(old(db.projects), badge.project, faults) && !faults.insertBadgeFails ==>
      r.Ok? && db.State() == Submit(old(db.State()), badge, addedAt)
    ensures Consistent(old(db.State())) ==> Consistent(db.State())
  {
    r := Handlers.BuildCreate(db, badge, addedAt, faults);
  }
}
