/**
  Summary statistics of a GitHub repository (github_api_stats.py).

  The GraphQL endpoint is not called here: every request is answered by a
  `Reply` given as input, the HTTP status together with the already parsed
  body. `get_authors` reads its replies from a sequence, the i-th reply
  answering the i-th request it sends, and it returns the requests it sent.
 */
module GithubApiStats {
  import opened Wrappers
  import opened Json
  import opened Strings
  import opened Unique

  // ---------------------------------------------------------------- query_github

  /** What the endpoint answered to one request: the HTTP status and the parsed JSON body. */
  datatype Reply<B> = Reply(status: int, body: B)

  /**
    A request the script sends, before it is rendered to text: the summary
    query of a repository, or one page of the authors of its issues or pull
    requests. `Render` gives the text that goes over the wire.
   */
  datatype Query =
    | RepoStatsQuery(owner: string, name: string)
    | AuthorsQuery(owner: string, name: string, contribution: string, first: nat, after: Option<string>)

  /** The exception `query_github` raises, with the status and the query it names. */
  datatype QueryError = QueryFailed(status: int, query: Query)

  /** `query_github(query)`: the parsed body when the status is 200; anything else raises. */
  function QueryGithub<B>(query: Query, reply: Reply<B>): (r: Result<B, QueryError>)
    ensures r.Success? <==> reply.status == 200
    ensures r.Success? ==> r.value == reply.body
    ensures r.Failure? ==> r.error == QueryFailed(reply.status, query)
  {
    if reply.status == 200 then Success(reply.body) else Failure(QueryFailed(reply.status, query))
  }

  // ---------------------------------------------------------------- get_easy_stats

  datatype Language = Language(name: string)
  datatype LicenseInfo = LicenseInfo(spdxId: Option<string>, pseudoLicense: bool)
  datatype Count = Count(totalCount: nat)

  /** The `repository` object of the summary query, as far as the statistics read it. */
  datatype RepoSummary = RepoSummary(
    createdAt: string,
    pushedAt: Option<string>,
    primaryLanguage: Option<Language>,
    licenseInfo: Option<LicenseInfo>,
    forks: Count,
    stargazers: Count,
    pullRequests: Count,
    issues: Count)

  /** `result['data']` of the summary query; the repository is null when it is not found. */
  datatype SummaryData = SummaryData(repository: Option<RepoSummary>)

  /** The keys of the statistics dictionary; `Column` gives each one's name in the source. */
  datatype StatKey =
    | OwnerKey | NameKey | CreatedAtKey | PushedAtKey | LanguageKey | LicenseKey | PseudoLicenseKey
    | ForksKey | StarsKey | PullRequestsKey | IssuesKey
    | UniqueAuthorsKey(contribution: string)

  /** The statistics dictionary of one repository. */
  type Stats = map<StatKey, Value>

  function Column(k: StatKey): string {
    match k
    case OwnerKey => "repository_owner"
    case NameKey => "repository_name"
    case CreatedAtKey => "createdAt"
    case PushedAtKey => "pushedAt"
    case LanguageKey => "language"
    case LicenseKey => "license"
    case PseudoLicenseKey => "pseudoLicense"
    case ForksKey => "n_forks"
    case StarsKey => "n_stars"
    case PullRequestsKey => "n_pullRequests"
    case IssuesKey => "n_issues"
    case UniqueAuthorsKey(c) => "n_" + c + "_unique_authors"
  }

  /** The keys `get_easy_stats` fills for a repository that exists. */
  const SUMMARY_KEYS: set<StatKey> := {
    OwnerKey, NameKey, CreatedAtKey, PushedAtKey, LanguageKey, LicenseKey, PseudoLicenseKey,
    ForksKey, StarsKey, PullRequestsKey, IssuesKey }

  /** The summary query for one repository. */
  function EasyStatsQuery(owner: string, name: string): string {
    "\n        query RepoStats {\n            repository(owner:\"" + owner + "\", name:\"" + name +
    "\") {\n                createdAt\n                pushedAt\n                shortDescriptionHTML\n                primaryLanguage {\n                    name\n                }\n                licenseInfo {\n                    spdxId\n                    pseudoLicense\n                }\n                forks(first:0) {\n                    totalCount\n                }\n                stargazers(first:0) {\n                    totalCount\n                }\n                pullRequests(first:0) {\n                    totalCount\n                }\n                issues(first:0) {\n                    totalCount\n                }\n            }\n        }\n    "
  }

  /** A nullable string as a dictionary value. */
  function OptStr(o: Option<string>): Value {
    match o
    case None => Null
    case Some(x) => Str(x)
  }

  /** The value `get_easy_stats` stores under key `k` for a repository that exists. */
  function SummaryField(owner: string, name: string, d: RepoSummary, k: StatKey): Value {
    match k
    case OwnerKey => Str(owner)
    case NameKey => Str(name)
    case CreatedAtKey => Str(d.createdAt)
    case PushedAtKey => OptStr(d.pushedAt)
    case LanguageKey => (match d.primaryLanguage case None => Null case Some(l) => Str(l.name))
    case LicenseKey => (match d.licenseInfo case None => Null case Some(l) => OptStr(l.spdxId))
    case PseudoLicenseKey => (match d.licenseInfo case None => Null case Some(l) => Bool(l.pseudoLicense))
    case ForksKey => Int(d.forks.totalCount)
    case StarsKey => Int(d.stargazers.totalCount)
    case PullRequestsKey => Int(d.pullRequests.totalCount)
    case IssuesKey => Int(d.issues.totalCount)
    case UniqueAuthorsKey(_) => Null
  }

  /**
    The dictionary `get_easy_stats` builds from the `repository` of its reply:
    owner and name always; for a repository that exists, also its dates,
    language, license and the four counts.
   */
  function SummaryStats(owner: string, name: string, repository: Option<RepoSummary>): (stats: Stats)
    ensures OwnerKey in stats && stats[OwnerKey] == Str(owner)
    ensures NameKey in stats && stats[NameKey] == Str(name)
    ensures repository.None? ==> stats.Keys == {OwnerKey, NameKey}
    ensures repository.Some? ==> stats.Keys == SUMMARY_KEYS
    ensures repository.Some? ==>
      var d := repository.value;
      stats[CreatedAtKey] == Str(d.createdAt) &&
      stats[PushedAtKey] == OptStr(d.pushedAt) &&
      (stats[PushedAtKey] == Null <==> d.pushedAt.None?)
    ensures repository.Some? ==>
      var d := repository.value;
      (stats[LanguageKey] == Null <==> d.primaryLanguage.None?) &&
      (d.primaryLanguage.Some? ==> stats[LanguageKey] == Str(d.primaryLanguage.value.name))
    ensures repository.Some? ==>
      var d := repository.value;
      (stats[PseudoLicenseKey] == Null <==> d.licenseInfo.None?) &&
      (d.licenseInfo.None? ==> stats[LicenseKey] == Null) &&
      (d.licenseInfo.Some? ==> stats[LicenseKey] == OptStr(d.licenseInfo.value.spdxId)) &&
      (d.licenseInfo.Some? ==> stats[PseudoLicenseKey] == Bool(d.licenseInfo.value.pseudoLicense))
    ensures repository.Some? ==>
      var d := repository.value;
      stats[ForksKey] == Int(d.forks.totalCount) &&
      stats[StarsKey] == Int(d.stargazers.totalCount) &&
      stats[PullRequestsKey] == Int(d.pullRequests.totalCount) &&
      stats[IssuesKey] == Int(d.issues.totalCount)
  {
    match repository
    case None => map[OwnerKey := Str(owner), NameKey := Str(name)]
    case Some(d) => map k | k in SUMMARY_KEYS :: SummaryField(owner, name, d, k)
  }

  /** `get_easy_stats(owner, name)`: the summary dictionary, or the exception of a failed query. */
  function GetEasyStats(owner: string, name: string, reply: Reply<SummaryData>): (r: Result<Stats, QueryError>)
    ensures r.Success? <==> reply.status == 200
    ensures r.Failure? ==> r.error == QueryFailed(reply.status, RepoStatsQuery(owner, name))
    ensures r.Success? ==> r.value == SummaryStats(owner, name, reply.body.repository)
  {
    match QueryGithub(RepoStatsQuery(owner, name), reply)
    case Failure(e) => Failure(e)
    case Success(data) => Success(SummaryStats(owner, name, data.repository))
  }

  function Get(stats: Stats, k: StatKey): Value {
    if k in stats then stats[k] else Null
  }

  function AsCount(v: Value): Count {
    if v.Int? && v.i >= 0 then Count(v.i) else Count(0)
  }

  function AsOptStr(v: Value): Option<string> {
    if v.Str? then Some(v.s) else None
  }

  /** Reads a repository summary back out of a statistics dictionary; `None` when it has no dates. */
  function Recover(stats: Stats): Option<RepoSummary> {
    if CreatedAtKey !in stats then None
    else
      var language := Get(stats, LanguageKey);
      var pseudo := Get(stats, PseudoLicenseKey);
      var createdAt := Get(stats, CreatedAtKey);
      Some(RepoSummary(
        if createdAt.Str? then createdAt.s else [],
        AsOptStr(Get(stats, PushedAtKey)),
        if language.Str? then Some(Language(language.s)) else None,
        if pseudo.Bool? then Some(LicenseInfo(AsOptStr(Get(stats, LicenseKey)), pseudo.b)) else None,
        AsCount(Get(stats, ForksKey)),
        AsCount(Get(stats, StarsKey)),
        AsCount(Get(stats, PullRequestsKey)),
        AsCount(Get(stats, IssuesKey))))
  }

  /**
    Flattening loses nothing: the repository summary (or its absence) can be read
    back from what `get_easy_stats` returns.
   */
  lemma EasyStatsRoundTrip(owner: string, name: string, repository: Option<RepoSummary>)
    ensures Recover(SummaryStats(owner, name, repository)) == repository
  {
    var stats := SummaryStats(owner, name, repository);
    if repository.Some? {
      var d := repository.value;
      assert Get(stats, PushedAtKey) == OptStr(d.pushedAt);
      assert Get(stats, LicenseKey) == SummaryField(owner, name, d, LicenseKey);
    }
  }

  // ---------------------------------------------------------------- build_authors_query

  /** How many edges one page of authors asks for. */
  const PAGE_SIZE: nat := 100

  /** Python's `'%s' % n` for a natural number. */
  function DecimalString(n: nat): string {
    if n < 10 then [(48 + n) as char] else DecimalString(n / 10) + [(48 + n % 10) as char]
  }

  /** The part of the authors query before the optional cursor. */
  function AuthorsQueryHead(owner: string, name: string, contribution: string, first: nat): string {
    "\n        query PRs {\n            repository(owner:\"" + owner + "\", name:\"" + name +
    "\") {\n                " + contribution + "(first:" + DecimalString(first) + "\n        "
  }

  /** The part of the authors query after the optional cursor. */
  const AUTHORS_QUERY_TAIL: string :=
    ") {\n                    totalCount\n                    pageInfo {\n                        endCursor\n                        hasNextPage\n                    }\n                    edges() {\n                        node() {\n                            id\n                            author {\n                                login\n                            }\n                        } \n                    }\n                }\n            }\n        }\n    "

  /** The `after:` clause, present only when there is a cursor. */
  function AfterClause(after: Option<string>): string {
    match after
    case None => []
    case Some(c) => ", after:\"" + c + "\""
  }

  /** `build_authors_query(owner, name, contribution, first, after)`. */
  function BuildAuthorsQuery(owner: string, name: string, contribution: string, first: nat, after: Option<string>): string {
    AuthorsQueryHead(owner, name, contribution, first) + AfterClause(after) + AUTHORS_QUERY_TAIL
  }

  /** The text of a request. */
  function Render(q: Query): string {
    match q
    case RepoStatsQuery(owner, name) => EasyStatsQuery(owner, name)
    case AuthorsQuery(owner, name, contribution, first, after) => BuildAuthorsQuery(owner, name, contribution, first, after)
  }

  /** Putting `mid` between `head` and `tail` is inserting it into `head + tail` at `|head|`. */
  lemma InsertedAt(head: string, mid: string, tail: string)
    ensures |head| <= |head + tail|
    ensures head + mid + tail == (head + tail)[..|head|] + mid + (head + tail)[|head|..]
  {
    assert (head + tail)[..|head|] == head;
    assert (head + tail)[|head|..] == tail;
  }

  /** The middle of `head + mid + tail` is determined by the whole and the length of `tail`. */
  lemma MiddleDetermined(head: string, x: string, y: string, tail: string)
    requires head + x + tail == head + y + tail
    ensures x == y
  {
    var q := head + x + tail;
    assert q[|head|..|head| + |x|] == x;
    assert q[|head|..|head| + |y|] == y;
  }

  /**
    With a cursor the query is the query without one, with `, after:"<cursor>"`
    inserted right after the page size.
   */
  lemma AfterClauseInserted(owner: string, name: string, contribution: string, first: nat, cursor: string)
    ensures var plain := BuildAuthorsQuery(owner, name, contribution, first, None);
      var k := |AuthorsQueryHead(owner, name, contribution, first)|;
      k <= |plain| &&
      BuildAuthorsQuery(owner, name, contribution, first, Some(cursor)) ==
        plain[..k] + AfterClause(Some(cursor)) + plain[k..]
  {
    var head := AuthorsQueryHead(owner, name, contribution, first);
    InsertedAt(head, AfterClause(Some(cursor)), AUTHORS_QUERY_TAIL);
    assert head + AfterClause(None) == head;
  }

  lemma AfterClauseInjective(a: Option<string>, b: Option<string>)
    requires AfterClause(a) == AfterClause(b)
    ensures a == b
  {
    match a
    case None =>
    case Some(x) =>
      var cx := AfterClause(a);
      assert cx[9..|cx| - 1] == x;
  }

  /** The query determines the cursor: different cursors give different queries. */
  lemma BuildAuthorsQueryInjective(owner: string, name: string, contribution: string, first: nat,
                                   a: Option<string>, b: Option<string>)
    requires BuildAuthorsQuery(owner, name, contribution, first, a) == BuildAuthorsQuery(owner, name, contribution, first, b)
    ensures a == b
  {
    var head := AuthorsQueryHead(owner, name, contribution, first);
    MiddleDetermined(head, AfterClause(a), AfterClause(b), AUTHORS_QUERY_TAIL);
    AfterClauseInjective(a, b);
  }

  // ---------------------------------------------------------------- get_authors

  datatype Actor = Actor(login: string)
  /** An issue or pull request; its author is null when the account was deleted. */
  datatype Node = Node(id: string, author: Option<Actor>)
  datatype Edge = Edge(node: Node)
  datatype PageInfo = PageInfo(endCursor: Option<string>, hasNextPage: bool)
  /** `repository[contribution]`: one page of issues or pull requests. */
  datatype Connection = Connection(totalCount: nat, pageInfo: PageInfo, edges: seq<Edge>)
  /** `js['data']` of an authors query; the repository is null when it is not found. */
  datatype AuthorsData = AuthorsData(repository: Option<Connection>)

  /** The logins of the edges whose author is not null, in order. */
  function Logins(edges: seq<Edge>): (logins: seq<string>)
    ensures |logins| <= |edges|
  {
    if edges == [] then []
    else
      var first := match edges[0].node.author case None => [] case Some(a) => [a.login];
      first + Logins(edges[1..])
  }

  /** A login is listed exactly when some edge has an author with that login. */
  lemma {:induction false} LoginsOf(edges: seq<Edge>, x: string)
    ensures x in Logins(edges) <==> exists i :: 0 <= i < |edges| && edges[i].node.author == Some(Actor(x))
  {
    if edges != [] {
      LoginsOf(edges[1..], x);
      if exists i :: 1 <= i < |edges| && edges[i].node.author == Some(Actor(x)) {
        var i :| 1 <= i < |edges| && edges[i].node.author == Some(Actor(x));
        assert edges[1..][i - 1] == edges[i];
      }
      if exists i :: 0 <= i < |edges[1..]| && edges[1..][i].node.author == Some(Actor(x)) {
        var i :| 0 <= i < |edges[1..]| && edges[1..][i].node.author == Some(Actor(x));
        assert edges[i + 1] == edges[1..][i];
      }
    }
  }

  /** Logins are collected edge by edge, in order: page boundaries and concatenation do not matter. */
  lemma {:induction false} LoginsAppend(a: seq<Edge>, b: seq<Edge>)
    ensures Logins(a + b) == Logins(a) + Logins(b)
  {
    if a == [] {
      assert a + b == b;
    } else {
      assert (a + b)[0] == a[0];
      assert (a + b)[1..] == a[1..] + b;
      LoginsAppend(a[1..], b);
    }
  }

  /** Every edge has a login exactly when no author is null; null authors are skipped, not counted. */
  lemma {:induction false} LoginsCount(edges: seq<Edge>)
    ensures |Logins(edges)| == |edges| <==> forall i :: 0 <= i < |edges| ==> edges[i].node.author.Some?
  {
    if edges != [] {
      LoginsCount(edges[1..]);
      assert forall i :: 1 <= i < |edges| ==> edges[i] == edges[1..][i - 1];
    }
  }

  /** A reply after which `get_authors` asks for another page. */
  predicate Continues(reply: Reply<AuthorsData>) {
    reply.status == 200 && reply.body.repository.Some? && reply.body.repository.value.pageInfo.hasNextPage
  }

  /** Some reply ends the pagination; otherwise the source's loop would never stop. */
  predicate Exhausts(replies: seq<Reply<AuthorsData>>) {
    exists i :: 0 <= i < |replies| && !Continues(replies[i])
  }

  /** The first reply from `from` on that ends the pagination. */
  ghost function StopAt(replies: seq<Reply<AuthorsData>>, from: nat): (k: nat)
    requires from <= |replies| && exists i :: from <= i < |replies| && !Continues(replies[i])
    ensures from <= k < |replies| && !Continues(replies[k])
    ensures forall i :: from <= i < k ==> Continues(replies[i])
    decreases |replies| - from
  {
    if !Continues(replies[from]) then from else StopAt(replies, from + 1)
  }

  /** The `endCursor` of a reply's page, when it has one. */
  function EndCursor(reply: Reply<AuthorsData>): Option<string> {
    match reply.body.repository
    case None => None
    case Some(c) => c.pageInfo.endCursor
  }

  /** A reply that ends the pagination, after replies that all continue it, is where it stops. */
  lemma StopIsFirst(replies: seq<Reply<AuthorsData>>, j: nat)
    requires j < |replies| && !Continues(replies[j])
    requires forall i :: 0 <= i < j ==> Continues(replies[i])
    ensures Exhausts(replies) && StopAt(replies, 0) == j
  {
  }

  /** The cursor of the i-th request: none for the first, the previous page's `endCursor` after that. */
  function CursorBefore(replies: seq<Reply<AuthorsData>>, i: nat): Option<string>
    requires i <= |replies|
  {
    if i == 0 then None else EndCursor(replies[i - 1])
  }

  function PageLogins(reply: Reply<AuthorsData>): seq<string> {
    match reply.body.repository
    case None => []
    case Some(c) => Logins(c.edges)
  }

  /** The logins of the first `n` pages, page after page. */
  function CollectedLogins(replies: seq<Reply<AuthorsData>>, n: nat): seq<string>
    requires n <= |replies|
  {
    if n == 0 then [] else CollectedLogins(replies, n - 1) + PageLogins(replies[n - 1])
  }

  /**
    What `get_authors` returns: the exception of the first request that fails,
    `[]` when a page reports no repository, and otherwise the logins of all pages
    up to the first one without a next page.
   */
  ghost function Authors(owner: string, name: string, contribution: string, replies: seq<Reply<AuthorsData>>): Result<seq<string>, QueryError>
    requires Exhausts(replies)
  {
    var k := StopAt(replies, 0);
    if replies[k].status != 200 then
      Failure(QueryFailed(replies[k].status, AuthorsQuery(owner, name, contribution, PAGE_SIZE, CursorBefore(replies, k))))
    else if replies[k].body.repository.None? then Success([])
    else Success(CollectedLogins(replies, k + 1))
  }

  /**
    `get_authors(owner, name, contribution)`. Also returns the requests it sent:
    the first without a cursor, each later one with the previous page's
    `endCursor`, and none after the page that ends the pagination.
   */
  method GetAuthors(owner: string, name: string, contribution: string, replies: seq<Reply<AuthorsData>>)
    returns (r: Result<seq<string>, QueryError>, queries: seq<Query>)
    requires Exhausts(replies)
    ensures r == Authors(owner, name, contribution, replies)
    ensures |queries| == StopAt(replies, 0) + 1
    ensures forall i :: 0 <= i < |queries| ==>
      queries[i] == AuthorsQuery(owner, name, contribution, PAGE_SIZE, CursorBefore(replies, i))
  {
    ghost var last := StopAt(replies, 0);
    var authors: seq<string> := [];
    var endCursor: Option<string> := None;
    var hasNextPage := true;
    var page: nat := 0;
    queries := [];
    while hasNextPage
      invariant page <= last + 1 && |queries| == page
      invariant hasNextPage ==> page <= last && forall i :: 0 <= i < page ==> Continues(replies[i])
      invariant !hasNextPage ==> page == last + 1 && replies[last].status == 200 && replies[last].body.repository.Some?
      invariant forall i :: 0 <= i < page ==>
        queries[i] == AuthorsQuery(owner, name, contribution, PAGE_SIZE, CursorBefore(replies, i))
      invariant endCursor == CursorBefore(replies, page)
      invariant authors == CollectedLogins(replies, page)
      decreases last + 1 - page
    {
      var query := AuthorsQuery(owner, name, contribution, PAGE_SIZE, endCursor);
      queries := queries + [query];
      var js := QueryGithub(query, replies[page]);
      if js.Failure? {
        StopIsFirst(replies, page);
        r := Failure(js.error);
        return;
      }
      if js.value.repository.None? {
        StopIsFirst(replies, page);
        r := Success([]);
        return;
      }
      var connection := js.value.repository.value;
      authors := authors + Logins(connection.edges);
      endCursor := connection.pageInfo.endCursor;
      hasNextPage := connection.pageInfo.hasNextPage;
      if !hasNextPage {
        StopIsFirst(replies, page);
      }
      page := page + 1;
    }
    r := Success(authors);
  }

  /** Pages are read in order and only the first `n` matter. */
  lemma {:induction false} CollectedLoginsPrefix(a: seq<Reply<AuthorsData>>, b: seq<Reply<AuthorsData>>, n: nat)
    requires n <= |a| && n <= |b| && a[..n] == b[..n]
    ensures CollectedLogins(a, n) == CollectedLogins(b, n)
  {
    if n > 0 {
      assert a[n - 1] == a[..n][n - 1] == b[..n][n - 1] == b[n - 1];
      assert a[..n - 1] == a[..n][..n - 1];
      assert b[..n - 1] == b[..n][..n - 1];
      CollectedLoginsPrefix(a, b, n - 1);
    }
  }

  /** The replies after the one that ends the pagination are never read. */
  lemma AuthorsIgnoreLaterReplies(owner: string, name: string, contribution: string,
                                  replies: seq<Reply<AuthorsData>>, extra: seq<Reply<AuthorsData>>)
    requires Exhausts(replies)
    ensures var k := StopAt(replies, 0);
      var cut := replies[..k + 1] + extra;
      Exhausts(cut) && Authors(owner, name, contribution, cut) == Authors(owner, name, contribution, replies)
  {
    var k := StopAt(replies, 0);
    var cut := replies[..k + 1] + extra;
    assert cut[k] == replies[k];
    assert forall i :: 0 <= i <= k ==> cut[i] == replies[i];
    assert Exhausts(cut);
    var j := StopAt(cut, 0);
    assert j == k;
    assert cut[..k + 1] == replies[..k + 1];
    CollectedLoginsPrefix(cut, replies, k + 1);
  }

  /** The edges of a reply's page; none when the repository is missing. */
  function PageEdges(reply: Reply<AuthorsData>): seq<Edge> {
    match reply.body.repository
    case None => []
    case Some(c) => c.edges
  }

  /** The edges of the first `n` pages, page after page. */
  function EdgesRead(replies: seq<Reply<AuthorsData>>, n: nat): seq<Edge>
    requires n <= |replies|
  {
    if n == 0 then [] else EdgesRead(replies, n - 1) + PageEdges(replies[n - 1])
  }

  /**
    Collecting the logins page by page gives the logins of all the edges read,
    in order: how the edges are split into pages does not matter.
   */
  lemma {:induction false} CollectedLoginsOfEdgesRead(replies: seq<Reply<AuthorsData>>, n: nat)
    requires n <= |replies|
    ensures CollectedLogins(replies, n) == Logins(EdgesRead(replies, n))
  {
    if n > 0 {
      CollectedLoginsOfEdgesRead(replies, n - 1);
      LoginsAppend(EdgesRead(replies, n - 1), PageEdges(replies[n - 1]));
      assert PageLogins(replies[n - 1]) == Logins(PageEdges(replies[n - 1]));
    }
  }

  /** The edges of all the pages `get_authors` reads. */
  ghost function EdgesReadToStop(replies: seq<Reply<AuthorsData>>): seq<Edge>
    requires Exhausts(replies)
  {
    EdgesRead(replies, StopAt(replies, 0) + 1)
  }

  /**
    The authors returned for a repository that exists are the logins of the
    non-null authors of all the edges read, and each such login is returned.
   */
  lemma AuthorsAreEdgeLogins(owner: string, name: string, contribution: string,
                             replies: seq<Reply<AuthorsData>>, x: string)
    requires Exhausts(replies)
    requires replies[StopAt(replies, 0)].status == 200 && replies[StopAt(replies, 0)].body.repository.Some?
    ensures Authors(owner, name, contribution, replies).Success?
    ensures x in Authors(owner, name, contribution, replies).value <==>
      exists i :: 0 <= i < |EdgesReadToStop(replies)| && EdgesReadToStop(replies)[i].node.author == Some(Actor(x))
  {
    var k := StopAt(replies, 0);
    CollectedLoginsOfEdgesRead(replies, k + 1);
    LoginsOf(EdgesRead(replies, k + 1), x);
    assert Authors(owner, name, contribution, replies).value == Logins(EdgesRead(replies, k + 1));
    assert EdgesReadToStop(replies) == EdgesRead(replies, k + 1);
  }

  /** `len(np.unique(authors))`. */
  function UniqueCount(xs: seq<string>): nat {
    |SortedUnique(xs)|
  }

  lemma {:induction false} SetOfSeqBounds(xs: seq<string>)
    ensures |set x | x in xs| <= |xs|
    ensures |set x | x in xs| == 0 <==> xs == []
  {
    if xs != [] {
      SetOfSeqBounds(xs[1..]);
      assert (set x | x in xs) == (set x | x in xs[1..]) + {xs[0]};
      assert xs[0] in (set x | x in xs);
    }
  }

  /**
    The count is the number of distinct logins: at most the number of logins,
    and zero only when there are none.
   */
  lemma UniqueCountDistinct(xs: seq<string>)
    ensures UniqueCount(xs) == |set x | x in xs|
    ensures UniqueCount(xs) <= |xs|
    ensures UniqueCount(xs) == 0 <==> xs == []
  {
    var u := SortedUnique(xs);
    StrictlySortedCardinality(u);
    assert (set x | x in u) == (set x | x in xs);
    SetOfSeqBounds(xs);
  }

  // ---------------------------------------------------------------- get_repo_stats

  /** The two kinds of contribution whose authors are counted, in the order they are queried. */
  const CONTRIBUTIONS: seq<string> := ["issues", "pullRequests"]

  /** The statistics after the unique-author counts of the first `n` contributions were added. */
  ghost function WithUniqueAuthors(stats: Stats, owner: string, name: string,
                                   authorReplies: seq<seq<Reply<AuthorsData>>>, n: nat): Result<Stats, QueryError>
    requires n <= |authorReplies| == |CONTRIBUTIONS|
    requires forall i :: 0 <= i < |authorReplies| ==> Exhausts(authorReplies[i])
  {
    if n == 0 then Success(stats)
    else match WithUniqueAuthors(stats, owner, name, authorReplies, n - 1)
      case Failure(e) => Failure(e)
      case Success(st) =>
        match Authors(owner, name, CONTRIBUTIONS[n - 1], authorReplies[n - 1])
        case Failure(e) => Failure(e)
        case Success(authors) => Success(st[UniqueAuthorsKey(CONTRIBUTIONS[n - 1]) := Int(UniqueCount(authors))])
  }

  /**
    `get_repo_stats(owner, name)`: the summary statistics plus the number of
    distinct authors of issues and of pull requests; the first exception
    raised on the way is raised.
   */
  method GetRepoStats(owner: string, name: string, summaryReply: Reply<SummaryData>,
                      authorReplies: seq<seq<Reply<AuthorsData>>>)
    returns (r: Result<Stats, QueryError>)
    requires |authorReplies| == |CONTRIBUTIONS|
    requires forall i :: 0 <= i < |authorReplies| ==> Exhausts(authorReplies[i])
    ensures var easy := GetEasyStats(owner, name, summaryReply);
      var issues := Authors(owner, name, "issues", authorReplies[0]);
      var pulls := Authors(owner, name, "pullRequests", authorReplies[1]);
      r == if easy.Failure? then Failure(easy.error)
           else if issues.Failure? then Failure(issues.error)
           else if pulls.Failure? then Failure(pulls.error)
           else Success(easy.value[UniqueAuthorsKey("issues") := Int(UniqueCount(issues.value))]
                                  [UniqueAuthorsKey("pullRequests") := Int(UniqueCount(pulls.value))])
  {
    var easy := GetEasyStats(owner, name, summaryReply);
    if easy.Failure? {
      return Failure(easy.error);
    }
    var stats := easy.value;
    for i := 0 to |CONTRIBUTIONS|
      invariant WithUniqueAuthors(easy.value, owner, name, authorReplies, i) == Success(stats)
    {
      var authors, _ := GetAuthors(owner, name, CONTRIBUTIONS[i], authorReplies[i]);
      if authors.Failure? {
        return Failure(authors.error);
      }
      stats := stats[UniqueAuthorsKey(CONTRIBUTIONS[i]) := Int(UniqueCount(authors.value))];
    }
    r := Success(stats);
  }

  /**
    A page that reports the repository missing makes the whole answer empty,
    discarding the authors of the pages before it.
   */
  lemma MissingRepositoryNoAuthors(owner: string, name: string, contribution: string,
                                   replies: seq<Reply<AuthorsData>>, k: nat)
    requires k < |replies| && forall i :: 0 <= i < k ==> Continues(replies[i])
    requires replies[k].status == 200 && replies[k].body.repository.None?
    ensures Exhausts(replies)
    ensures Authors(owner, name, contribution, replies) == Success([])
  {
    StopIsFirst(replies, k);
  }

  // ---------------------------------------------------------------- the main block

  /** `url.split("/")` then `url[1]`, `url[2]`: the owner and name of a `github_url`; `None` where Python raises IndexError. */
  function RepoFromUrl(url: string): (r: Option<(string, string)>)
    ensures r.Some? <==> |Split(url, '/')| >= 3
  {
    var parts := Split(url, '/');
    if |parts| < 3 then None else Some((parts[1], parts[2]))
  }

  /** A URL `host/owner/name`, possibly followed by further path segments, yields that owner and name. */
  lemma RepoFromUrlRoundTrip(host: string, owner: string, name: string, rest: string)
    requires '/' !in host && '/' !in owner && '/' !in name
    requires rest == [] || rest[0] == '/'
    ensures RepoFromUrl(host + "/" + owner + "/" + name + rest) == Some((owner, name))
  {
    var url := host + "/" + owner + "/" + name + rest;
    assert url == host + ['/'] + (owner + ['/'] + (name + rest));
    SplitAtFirstSeparator(host, owner + ['/'] + (name + rest), '/');
    SplitAtFirstSeparator(owner, name + rest, '/');
    if rest == [] {
      assert name + rest == name;
      SplitNoSeparator(name, '/');
    } else {
      assert name + rest == name + ['/'] + rest[1..];
      SplitAtFirstSeparator(name, rest[1..], '/');
    }
  }
}
