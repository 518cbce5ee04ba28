/**
 * Collecting contributors repository by repository. The hosting
 * platform's API is an input: a repository carries what iterating its
 * contributor listing yields and what its commit query answers, and the
 * connection maps names to repositories. The merge across repositories
 * (`contributor_stats.merge_contributors`) is a parameter.
 */
module Contributors {
  import opened Wrappers
  import opened Text

  /** One entry of a repository's contributor listing. */
  datatype User = User(login: string, avatarUrl: string, contributionsCount: int)

  /** One step of iterating the contributor listing: a user, or an error raised by the API. */
  datatype Fetched = Got(user: User) | FetchError

  /**
   * What asking for the first commit of `repo.commits(author, since, until)`
   * does: it yields one, it raises StopIteration, or it raises another error.
   */
  datatype CommitProbe = HasCommits | NoCommits | ProbeError

  /** A repository object as the API hands it out; nothing here changes it. */
  class Repository {
    const fullName: string
    const fork: bool
    const listing: seq<Fetched>
    const probe: (string, string, string) -> CommitProbe

    constructor (fullName: string, fork: bool, listing: seq<Fetched>,
                 probe: (string, string, string) -> CommitProbe)
      ensures this.fullName == fullName && this.fork == fork
      ensures this.listing == listing && this.probe == probe
    {
      this.fullName, this.fork, this.listing, this.probe := fullName, fork, listing, probe;
    }
  }

  /** The authenticated connection: an organization's repositories, and a repository by owner and name. */
  datatype Connection = Connection(
    organizationRepositories: string -> seq<Repository>,
    repository: (string, string) -> Repository)

  /** `contributor_stats.ContributorStats`, in the order of its constructor's arguments. */
  datatype ContributorStats = ContributorStats(
    username: string,
    newContributor: bool,
    avatarUrl: string,
    contributionCount: int,
    commitUrl: string,
    sponsorInfo: string)

  const DefaultEndpoint := "https://github.com"
  const BotMarker := "[bot]"

  /** Both ends of the date range are given. */
  predicate Dated(startDate: string, endDate: string) {
    startDate != "" && endDate != ""
  }

  predicate IsBot(login: string) {
    Contains(login, BotMarker)
  }

  /** The host the links point at: the enterprise URL when one is given, the public site otherwise; never empty. */
  function Endpoint(ghe: string): (r: string)
    ensures r != []
    ensures ghe != "" ==> r == ghe
    ensures ghe == "" ==> r == DefaultEndpoint
  {
    if ghe != "" then ghe else DefaultEndpoint
  }

  /**
   * The link to a user's commits in a repository: the author query on the
   * repository's commit page, followed by the range query exactly when
   * both dates are given.
   */
  function CommitUrl(ghe: string, fullName: string, login: string, startDate: string, endDate: string): (r: string)
    ensures Endpoint(ghe) + "/" + fullName + "/commits?author=" + login <= r
    ensures !Dated(startDate, endDate) ==> r == Endpoint(ghe) + "/" + fullName + "/commits?author=" + login
    ensures Dated(startDate, endDate) ==>
              r[|Endpoint(ghe) + "/" + fullName + "/commits?author=" + login|..]
              == "&since=" + startDate + "&until=" + endDate
  {
    var base := Endpoint(ghe) + "/" + fullName + "/commits?author=" + login;
    var query := if Dated(startDate, endDate) then "&since=" + startDate + "&until=" + endDate else "";
    assert (base + query)[..|base|] == base && (base + query)[|base|..] == query;
    base + query
  }

  /** The two f-strings of the source, one per case, spell out `CommitUrl`. */
  lemma CommitUrlSpelled(ghe: string, fullName: string, login: string, startDate: string, endDate: string)
    ensures Dated(startDate, endDate) ==>
              CommitUrl(ghe, fullName, login, startDate, endDate)
              == Endpoint(ghe) + "/" + fullName + "/commits?author=" + login
                 + "&since=" + startDate + "&until=" + endDate
    ensures !Dated(startDate, endDate) ==>
              CommitUrl(ghe, fullName, login, startDate, endDate)
              == Endpoint(ghe) + "/" + fullName + "/commits?author=" + login
  {
    var base := Endpoint(ghe) + "/" + fullName + "/commits?author=" + login;
    assert base + ("&since=" + startDate + "&until=" + endDate)
           == base + "&since=" + startDate + "&until=" + endDate;
  }

  /** The record built for a user who is kept. */
  function Build(repo: Repository, u: User, startDate: string, endDate: string, ghe: string): ContributorStats {
    ContributorStats(u.login, false, u.avatarUrl, u.contributionsCount,
                     CommitUrl(ghe, repo.fullName, u.login, startDate, endDate), "")
  }

  // ---------------------------------------------------------------------
  // One repository: get_contributors

  /** What handling one listing step does to the run. */
  datatype Step = Skip | Keep(stats: ContributorStats) | Raise

  /**
   * One pass of the loop body: a step raises exactly when it is a listing
   * error or a failed commit query, and keeps a record exactly for a
   * wanted user, built from that user.
   */
  function Examine(repo: Repository, f: Fetched, startDate: string, endDate: string, ghe: string): (r: Step)
    ensures r.Raise? <==> Raises(repo, f, startDate, endDate)
    ensures r.Keep? <==> f.Got? && Wanted(repo, f.user, startDate, endDate)
    ensures r.Keep? ==> r.stats == Build(repo, f.user, startDate, endDate, ghe)
  {
    match f
    case FetchError => Raise
    case Got(u) =>
      if IsBot(u.login) then Skip
      else if Dated(startDate, endDate) then
        match repo.probe(u.login, startDate, endDate)
        case ProbeError => Raise
        case NoCommits => Skip
        case HasCommits => Keep(Build(repo, u, startDate, endDate, ghe))
      else Keep(Build(repo, u, startDate, endDate, ghe))
  }

  /**
   * The result of running over the listing steps `items` in order: the
   * records kept so far, or `None` once any step raised.
   */
  function Harvest(repo: Repository, items: seq<Fetched>, startDate: string, endDate: string, ghe: string)
    : Option<seq<ContributorStats>>
  {
    if items == [] then Some([])
    else
      match Harvest(repo, items[..|items| - 1], startDate, endDate, ghe)
      case None => None
      case Some(acc) =>
        match Examine(repo, items[|items| - 1], startDate, endDate, ghe)
        case Skip => Some(acc)
        case Keep(c) => Some(acc + [c])
        case Raise => None
  }

  /** Once a prefix of the listing has raised, the whole run has. */
  lemma {:induction false} HarvestFailureSticks(repo: Repository, items: seq<Fetched>, n: nat,
                                                startDate: string, endDate: string, ghe: string)
    requires n <= |items|
    requires Harvest(repo, items[..n], startDate, endDate, ghe) == None
    ensures Harvest(repo, items, startDate, endDate, ghe) == None
  {
    if n < |items| {
      var init := items[..|items| - 1];
      assert init[..n] == items[..n];
      HarvestFailureSticks(repo, init, n, startDate, endDate, ghe);
    } else {
      assert items[..n] == items;
    }
  }

  /**
   * `get_contributors`: walk the listing, skip bots, skip users without a
   * commit in the range when both dates are given, and build a record for
   * everyone else; any error gives `None`.
   */
  method GetContributors(repo: Repository, startDate: string, endDate: string, ghe: string)
    returns (r: Option<seq<ContributorStats>>)
    ensures r == Harvest(repo, repo.listing, startDate, endDate, ghe)
  {
    var contributors: seq<ContributorStats> := [];
    for i := 0 to |repo.listing|
      invariant Harvest(repo, repo.listing[..i], startDate, endDate, ghe) == Some(contributors)
    {
      assert repo.listing[..i + 1][..i] == repo.listing[..i];
      match repo.listing[i]
      case FetchError =>
        HarvestFailureSticks(repo, repo.listing, i + 1, startDate, endDate, ghe);
        return None;
      case Got(user) =>
        if Contains(user.login, BotMarker) {
          assert Examine(repo, repo.listing[i], startDate, endDate, ghe) == Skip;
          continue;
        }
        if startDate != "" && endDate != "" {
          var commits := repo.probe(user.login, startDate, endDate);
          if commits == ProbeError {
            HarvestFailureSticks(repo, repo.listing, i + 1, startDate, endDate, ghe);
            return None;
          }
          if commits == NoCommits {
            assert Examine(repo, repo.listing[i], startDate, endDate, ghe) == Skip;
            continue;
          }
        }
        var endpoint := if ghe != "" then ghe else DefaultEndpoint;
        var commitUrl;
        if startDate != "" && endDate != "" {
          commitUrl := endpoint + "/" + repo.fullName + "/commits?author=" + user.login
                       + "&since=" + startDate + "&until=" + endDate;
        } else {
          commitUrl := endpoint + "/" + repo.fullName + "/commits?author=" + user.login;
        }
        CommitUrlSpelled(ghe, repo.fullName, user.login, startDate, endDate);
        var contributor := ContributorStats(user.login, false, user.avatarUrl,
                                            user.contributionsCount, commitUrl, "");
        assert Examine(repo, repo.listing[i], startDate, endDate, ghe) == Keep(contributor);
        contributors := contributors + [contributor];
    }
    assert repo.listing[..|repo.listing|] == repo.listing;
    return Some(contributors);
  }

  // ---------------------------------------------------------------------
  // What the run over one repository means

  /** A listing step that makes the run fail. */
  predicate Raises(repo: Repository, f: Fetched, startDate: string, endDate: string) {
    f.FetchError?
    || (!IsBot(f.user.login) && Dated(startDate, endDate)
        && repo.probe(f.user.login, startDate, endDate) == ProbeError)
  }

  /** A user who ends up in the result: not a bot, and with a commit in the range if one is given. */
  predicate Wanted(repo: Repository, u: User, startDate: string, endDate: string) {
    !IsBot(u.login)
    && (Dated(startDate, endDate) ==> repo.probe(u.login, startDate, endDate) == HasCommits)
  }

  /** The users the listing yields, in listing order. */
  function Users(items: seq<Fetched>): seq<User> {
    if items == [] then []
    else
      Users(items[..|items| - 1])
      + (if items[|items| - 1].Got? then [items[|items| - 1].user] else [])
  }

  /** The wanted users among `us`, in order. */
  function KeptUsers(repo: Repository, us: seq<User>, startDate: string, endDate: string): (r: seq<User>)
    ensures |r| <= |us|
    ensures forall j :: 0 <= j < |r| ==> Wanted(repo, r[j], startDate, endDate)
  {
    if us == [] then []
    else
      KeptUsers(repo, us[..|us| - 1], startDate, endDate)
      + (if Wanted(repo, us[|us| - 1], startDate, endDate) then [us[|us| - 1]] else [])
  }

  /** One record per user, in the same order. */
  function BuildAll(repo: Repository, us: seq<User>, startDate: string, endDate: string, ghe: string)
    : (r: seq<ContributorStats>)
    ensures |r| == |us|
    ensures forall j :: 0 <= j < |us| ==> r[j] == Build(repo, us[j], startDate, endDate, ghe)
  {
    if us == [] then []
    else BuildAll(repo, us[..|us| - 1], startDate, endDate, ghe) + [Build(repo, us[|us| - 1], startDate, endDate, ghe)]
  }

  /** `a` is `b` with some elements left out, the rest in order. */
  predicate IsSubsequence(a: seq<User>, b: seq<User>) {
    if a == [] then true
    else if b == [] then false
    else if a[|a| - 1] == b[|b| - 1] then IsSubsequence(a[..|a| - 1], b[..|b| - 1])
    else IsSubsequence(a, b[..|b| - 1])
  }

  /** The run fails exactly when some step of the listing raises; it never returns part of a list. */
  lemma {:induction false} HarvestFailsIff(repo: Repository, items: seq<Fetched>,
                                           startDate: string, endDate: string, ghe: string)
    ensures Harvest(repo, items, startDate, endDate, ghe).None?
            <==> exists i :: 0 <= i < |items| && Raises(repo, items[i], startDate, endDate)
  {
    if items != [] {
      var init, last := items[..|items| - 1], items[|items| - 1];
      HarvestFailsIff(repo, init, startDate, endDate, ghe);
      assert forall i :: 0 <= i < |init| ==> init[i] == items[i];
      assert Examine(repo, last, startDate, endDate, ghe).Raise? <==> Raises(repo, last, startDate, endDate);
      if exists i :: 0 <= i < |items| && Raises(repo, items[i], startDate, endDate) {
        var i :| 0 <= i < |items| && Raises(repo, items[i], startDate, endDate);
        if i < |init| {
          assert Raises(repo, init[i], startDate, endDate);
        }
      }
    }
  }

  /** Without a raising step, the run keeps exactly the wanted users, in listing order, as records. */
  lemma {:induction false} HarvestSucceeds(repo: Repository, items: seq<Fetched>,
                                           startDate: string, endDate: string, ghe: string)
    requires forall i :: 0 <= i < |items| ==> !Raises(repo, items[i], startDate, endDate)
    ensures Harvest(repo, items, startDate, endDate, ghe)
            == Some(BuildAll(repo, KeptUsers(repo, Users(items), startDate, endDate), startDate, endDate, ghe))
  {
    if items != [] {
      var init, last := items[..|items| - 1], items[|items| - 1];
      assert forall i :: 0 <= i < |init| ==> init[i] == items[i];
      HarvestSucceeds(repo, init, startDate, endDate, ghe);
      assert !Raises(repo, last, startDate, endDate);
      assert Users(items) == Users(init) + [last.user];
      KeptUsersSnoc(repo, Users(init), last.user, startDate, endDate);
      var keptInit := KeptUsers(repo, Users(init), startDate, endDate);
      var built := BuildAll(repo, keptInit, startDate, endDate, ghe);
      if Wanted(repo, last.user, startDate, endDate) {
        BuildAllSnoc(repo, keptInit, last.user, startDate, endDate, ghe);
        assert Harvest(repo, items, startDate, endDate, ghe)
               == Some(built + [Build(repo, last.user, startDate, endDate, ghe)]);
        assert KeptUsers(repo, Users(items), startDate, endDate) == keptInit + [last.user];
      } else {
        assert Harvest(repo, items, startDate, endDate, ghe) == Some(built);
        assert KeptUsers(repo, Users(items), startDate, endDate) == keptInit;
      }
    }
  }

  lemma KeptUsersSnoc(repo: Repository, us: seq<User>, u: User, startDate: string, endDate: string)
    ensures KeptUsers(repo, us + [u], startDate, endDate)
            == KeptUsers(repo, us, startDate, endDate) + (if Wanted(repo, u, startDate, endDate) then [u] else [])
  {
    assert (us + [u])[..|us|] == us;
  }

  lemma BuildAllSnoc(repo: Repository, us: seq<User>, u: User, startDate: string, endDate: string, ghe: string)
    ensures BuildAll(repo, us + [u], startDate, endDate, ghe)
            == BuildAll(repo, us, startDate, endDate, ghe) + [Build(repo, u, startDate, endDate, ghe)]
  {
    assert (us + [u])[..|us|] == us;
  }

  lemma {:induction false} KeptUsersMember(repo: Repository, us: seq<User>, u: User, startDate: string, endDate: string)
    ensures u in KeptUsers(repo, us, startDate, endDate) <==> u in us && Wanted(repo, u, startDate, endDate)
  {
    if us != [] {
      var init := us[..|us| - 1];
      KeptUsersMember(repo, init, u, startDate, endDate);
      assert us == init + [us[|us| - 1]];
    }
  }

  /** The kept users are a subsequence of the listing's users. */
  lemma {:induction false} KeptUsersSubsequence(repo: Repository, us: seq<User>, startDate: string, endDate: string)
    ensures IsSubsequence(KeptUsers(repo, us, startDate, endDate), us)
  {
    if us != [] {
      var init := us[..|us| - 1];
      var kept := KeptUsers(repo, us, startDate, endDate);
      KeptUsersSubsequence(repo, init, startDate, endDate);
      if Wanted(repo, us[|us| - 1], startDate, endDate) {
        assert kept[..|kept| - 1] == KeptUsers(repo, init, startDate, endDate);
      } else {
        assert kept == KeptUsers(repo, init, startDate, endDate);
        SubsequenceDropLast(kept, us);
      }
    }
  }

  /** A subsequence of all but the last element is a subsequence of the whole. */
  lemma SubsequenceDropLast(a: seq<User>, b: seq<User>)
    requires b != [] && IsSubsequence(a, b[..|b| - 1])
    ensures IsSubsequence(a, b)
  {
    if a != [] && a[|a| - 1] == b[|b| - 1] {
      SubsequenceShrink(a, b[..|b| - 1]);
    }
  }

  lemma {:induction false} SubsequenceShrink(a: seq<User>, b: seq<User>)
    requires a != [] && IsSubsequence(a, b)
    ensures IsSubsequence(a[..|a| - 1], b)
  {
    assert b != [];
    var aInit, bInit := a[..|a| - 1], b[..|b| - 1];
    if a[|a| - 1] == b[|b| - 1] {
      if aInit != [] {
        SubsequenceShrink(aInit, bInit);
        SubsequenceDropLast(aInit[..|aInit| - 1], b);
        if aInit[|aInit| - 1] == b[|b| - 1] {
          assert IsSubsequence(aInit, b) <== IsSubsequence(aInit[..|aInit| - 1], bInit);
        }
      }
    } else {
      SubsequenceShrink(a, bInit);
      SubsequenceDropLast(aInit, b);
    }
  }

  lemma {:induction false} BuildAllMember(repo: Repository, us: seq<User>, u: User,
                                          startDate: string, endDate: string, ghe: string)
    ensures Build(repo, u, startDate, endDate, ghe) in BuildAll(repo, us, startDate, endDate, ghe) <==> u in us
  {
    var cs := BuildAll(repo, us, startDate, endDate, ghe);
    if u in us {
      var j :| 0 <= j < |us| && us[j] == u;
      assert cs[j] == Build(repo, u, startDate, endDate, ghe);
    }
    if Build(repo, u, startDate, endDate, ghe) in cs {
      var j :| 0 <= j < |cs| && cs[j] == Build(repo, u, startDate, endDate, ghe);
      assert us[j] == u;
    }
  }

  /**
   * A successful run holds no bot, only fresh records (not new, no
   * sponsor information), each linking to its user's commits.
   */
  lemma ContributorRecords(repo: Repository, startDate: string, endDate: string, ghe: string,
                           cs: seq<ContributorStats>)
    requires Harvest(repo, repo.listing, startDate, endDate, ghe) == Some(cs)
    ensures forall j :: 0 <= j < |cs| ==> !IsBot(cs[j].username)
    ensures forall j :: 0 <= j < |cs| ==> !cs[j].newContributor && cs[j].sponsorInfo == ""
    ensures forall j :: 0 <= j < |cs| ==>
              cs[j].commitUrl == CommitUrl(ghe, repo.fullName, cs[j].username, startDate, endDate)
  {
    HarvestFailsIff(repo, repo.listing, startDate, endDate, ghe);
    HarvestSucceeds(repo, repo.listing, startDate, endDate, ghe);
    var kept := KeptUsers(repo, Users(repo.listing), startDate, endDate);
    assert forall j :: 0 <= j < |cs| ==> cs[j] == Build(repo, kept[j], startDate, endDate, ghe) && !IsBot(kept[j].login);
  }

  /**
   * The records of a successful run are the wanted users of the listing,
   * in listing order: a subsequence of the users, and a user of the
   * listing has a record exactly when it is wanted.
   */
  lemma ContributorSelection(repo: Repository, startDate: string, endDate: string, ghe: string,
                             cs: seq<ContributorStats>)
    requires Harvest(repo, repo.listing, startDate, endDate, ghe) == Some(cs)
    ensures IsSubsequence(KeptUsers(repo, Users(repo.listing), startDate, endDate), Users(repo.listing))
    ensures cs == BuildAll(repo, KeptUsers(repo, Users(repo.listing), startDate, endDate), startDate, endDate, ghe)
    ensures forall u :: u in Users(repo.listing) ==>
              (Build(repo, u, startDate, endDate, ghe) in cs <==> Wanted(repo, u, startDate, endDate))
  {
    HarvestFailsIff(repo, repo.listing, startDate, endDate, ghe);
    HarvestSucceeds(repo, repo.listing, startDate, endDate, ghe);
    var us := Users(repo.listing);
    KeptUsersSubsequence(repo, us, startDate, endDate);
    forall u | u in us
      ensures Build(repo, u, startDate, endDate, ghe) in cs <==> Wanted(repo, u, startDate, endDate)
    {
      KeptUsersMember(repo, us, u, startDate, endDate);
      BuildAllMember(repo, KeptUsers(repo, us, startDate, endDate), u, startDate, endDate, ghe);
    }
  }

  // ---------------------------------------------------------------------
  // All repositories: get_all_contributors

  /** `owner, repo_name = entry.split("/")` raises when the entry is not exactly two pieces. */
  datatype SourceError = MalformedRepository(entry: string)

  /** Each `owner/name` entry of the list in turn, resolved through the connection. */
  function ResolveList(repositoryList: seq<string>, conn: Connection): Result<seq<Repository>, SourceError> {
    if repositoryList == [] then Ok([])
    else
      match ResolveList(repositoryList[..|repositoryList| - 1], conn)
      case Err(e) => Err(e)
      case Ok(repos) =>
        var entry := repositoryList[|repositoryList| - 1];
        var parts := Split(entry, '/');
        if |parts| != 2 then Err(MalformedRepository(entry))
        else Ok(repos + [conn.repository(parts[0], parts[1])])
  }

  /** The organization's repositories when one is named, the listed ones otherwise. */
  function RepositorySource(organization: Option<string>, repositoryList: seq<string>, conn: Connection)
    : Result<seq<Repository>, SourceError>
  {
    if organization.Some? && organization.value != "" then Ok(conn.organizationRepositories(organization.value))
    else ResolveList(repositoryList, conn)
  }

  /**
   * Resolving a repository list fails exactly on its first entry without
   * exactly one "/"; otherwise it gives one repository per entry, in order,
   * looked up by the entry's owner and name.
   */
  lemma {:induction false} ResolveListMeaning(repositoryList: seq<string>, conn: Connection)
    ensures ResolveList(repositoryList, conn).Ok?
            <==> forall i :: 0 <= i < |repositoryList| ==> Count(repositoryList[i], '/') == 1
    ensures ResolveList(repositoryList, conn).Ok? ==>
              var repos := ResolveList(repositoryList, conn).value;
              |repos| == |repositoryList|
              && forall i :: 0 <= i < |repos| ==>
                   repos[i] == conn.repository(Split(repositoryList[i], '/')[0], Split(repositoryList[i], '/')[1])
    ensures ResolveList(repositoryList, conn).Err? ==>
              exists i :: 0 <= i < |repositoryList|
                && ResolveList(repositoryList, conn).error == MalformedRepository(repositoryList[i])
                && Count(repositoryList[i], '/') != 1
                && forall k :: 0 <= k < i ==> Count(repositoryList[k], '/') == 1
  {
    if repositoryList != [] {
      var init := repositoryList[..|repositoryList| - 1];
      ResolveListMeaning(init, conn);
      assert forall i :: 0 <= i < |init| ==> init[i] == repositoryList[i];
      var last := |repositoryList| - 1;
      var r := ResolveList(repositoryList, conn);
      if ResolveList(init, conn).Err? {
        var i :| 0 <= i < |init| && ResolveList(init, conn).error == MalformedRepository(init[i])
                 && Count(init[i], '/') != 1 && forall k :: 0 <= k < i ==> Count(init[k], '/') == 1;
        assert r.error == MalformedRepository(repositoryList[i]);
      } else if r.Err? {
        assert forall k :: 0 <= k < last ==> Count(repositoryList[k], '/') == 1;
      }
    }
  }

  /**
   * Resolving the repository list one entry at a time, as the `for` loop
   * over `repository_list` does.
   */
  method ResolveRepositories(organization: Option<string>, repositoryList: seq<string>, conn: Connection)
    returns (r: Result<seq<Repository>, SourceError>)
    ensures r == RepositorySource(organization, repositoryList, conn)
  {
    if organization.Some? && organization.value != "" {
      return Ok(conn.organizationRepositories(organization.value));
    }
    var repos: seq<Repository> := [];
    for i := 0 to |repositoryList|
      invariant ResolveList(repositoryList[..i], conn) == Ok(repos)
    {
      assert repositoryList[..i + 1][..i] == repositoryList[..i];
      var parts := Split(repositoryList[i], '/');
      if |parts| != 2 {
        ResolveFailureSticks(repositoryList, i + 1, conn);
        return Err(MalformedRepository(repositoryList[i]));
      }
      var owner, repoName := parts[0], parts[1];
      repos := repos + [conn.repository(owner, repoName)];
    }
    assert repositoryList[..|repositoryList|] == repositoryList;
    return Ok(repos);
  }

  lemma {:induction false} ResolveFailureSticks(repositoryList: seq<string>, n: nat, conn: Connection)
    requires n <= |repositoryList|
    requires ResolveList(repositoryList[..n], conn).Err?
    ensures ResolveList(repositoryList, conn) == ResolveList(repositoryList[..n], conn)
  {
    if n < |repositoryList| {
      var init := repositoryList[..|repositoryList| - 1];
      assert init[..n] == repositoryList[..n];
      ResolveFailureSticks(init, n, conn);
    } else {
      assert repositoryList[..n] == repositoryList;
    }
  }

  /** A repository whose contributors are fetched: forks only when they are asked for. */
  predicate Included(repo: Repository, includeForks: bool) {
    includeForks || !repo.fork
  }

  /** The non-empty per-repository results of the included repositories, in repository order. */
  function PerRepoLists(repos: seq<Repository>, startDate: string, endDate: string, includeForks: bool, ghe: string)
    : seq<seq<ContributorStats>>
  {
    if repos == [] then []
    else
      var done := PerRepoLists(repos[..|repos| - 1], startDate, endDate, includeForks, ghe);
      var repo := repos[|repos| - 1];
      if Included(repo, includeForks) then
        match Harvest(repo, repo.listing, startDate, endDate, ghe)
        case Some(cs) => if cs != [] then done + [cs] else done
        case None => done
      else done
  }

  /**
   * The loop of `get_all_contributors`: call `get_contributors` on every
   * included repository and keep the results that are neither `None` nor empty.
   */
  method CollectPerRepo(repos: seq<Repository>, startDate: string, endDate: string, includeForks: bool, ghe: string)
    returns (all: seq<seq<ContributorStats>>)
    ensures all == PerRepoLists(repos, startDate, endDate, includeForks, ghe)
  {
    all := [];
    for i := 0 to |repos|
      invariant all == PerRepoLists(repos[..i], startDate, endDate, includeForks, ghe)
    {
      assert repos[..i + 1][..i] == repos[..i];
      var repo := repos[i];
      if includeForks || !repo.fork {
        var repoContributors := GetContributors(repo, startDate, endDate, ghe);
        if repoContributors.Some? && repoContributors.value != [] {
          all := all + [repoContributors.value];
        }
      }
    }
    assert repos[..|repos|] == repos;
  }

  /** The lists of two runs of repositories follow each other: repository order is kept. */
  lemma {:induction false} PerRepoListsAppend(a: seq<Repository>, b: seq<Repository>,
                                              startDate: string, endDate: string, includeForks: bool, ghe: string)
    ensures PerRepoLists(a + b, startDate, endDate, includeForks, ghe)
            == PerRepoLists(a, startDate, endDate, includeForks, ghe) + PerRepoLists(b, startDate, endDate, includeForks, ghe)
  {
    if b == [] {
      assert a + b == a;
    } else {
      var bInit := b[..|b| - 1];
      assert (a + b)[..|a + b| - 1] == a + bInit;
      assert (a + b)[|a + b| - 1] == b[|b| - 1];
      PerRepoListsAppend(a, bInit, startDate, endDate, includeForks, ghe);
    }
  }

  /** `cs` is non-empty and is the successful run of one of the included repositories. */
  predicate FromIncludedRun(cs: seq<ContributorStats>, repos: seq<Repository>,
                            startDate: string, endDate: string, includeForks: bool, ghe: string)
  {
    cs != []
    && exists i :: 0 <= i < |repos| && Included(repos[i], includeForks)
         && Harvest(repos[i], repos[i].listing, startDate, endDate, ghe) == Some(cs)
  }

  /**
   * Every list handed to the merge is non-empty and is the successful run
   * of an included repository; and every included repository with a
   * non-empty successful run contributes its list.
   */
  lemma {:induction false} PerRepoListsMeaning(repos: seq<Repository>, startDate: string, endDate: string,
                                               includeForks: bool, ghe: string)
    ensures forall j :: 0 <= j < |PerRepoLists(repos, startDate, endDate, includeForks, ghe)| ==>
              FromIncludedRun(PerRepoLists(repos, startDate, endDate, includeForks, ghe)[j],
                              repos, startDate, endDate, includeForks, ghe)
    ensures forall i :: (0 <= i < |repos| && Included(repos[i], includeForks)
                         && Harvest(repos[i], repos[i].listing, startDate, endDate, ghe).Some?
                         && Harvest(repos[i], repos[i].listing, startDate, endDate, ghe).value != []) ==>
              Harvest(repos[i], repos[i].listing, startDate, endDate, ghe).value
                in PerRepoLists(repos, startDate, endDate, includeForks, ghe)
  {
    if repos != [] {
      var init, last := repos[..|repos| - 1], repos[|repos| - 1];
      PerRepoListsMeaning(init, startDate, endDate, includeForks, ghe);
      assert forall i :: 0 <= i < |init| ==> init[i] == repos[i];
      var done := PerRepoLists(init, startDate, endDate, includeForks, ghe);
      var lists := PerRepoLists(repos, startDate, endDate, includeForks, ghe);
      var h := Harvest(last, last.listing, startDate, endDate, ghe);
      if Included(last, includeForks) && h.Some? && h.value != [] {
        assert lists == done + [h.value];
      } else {
        assert lists == done;
      }
      forall j | 0 <= j < |lists|
        ensures FromIncludedRun(lists[j], repos, startDate, endDate, includeForks, ghe)
      {
        if j < |done| {
          assert lists[j] == done[j];
          assert FromIncludedRun(done[j], init, startDate, endDate, includeForks, ghe);
          var i :| 0 <= i < |init| && Included(init[i], includeForks)
                   && Harvest(init[i], init[i].listing, startDate, endDate, ghe) == Some(done[j]);
          assert init[i] == repos[i];
        } else {
          assert Harvest(repos[|repos| - 1], repos[|repos| - 1].listing, startDate, endDate, ghe) == Some(lists[j]);
        }
      }
    }
  }

  /** Without `include_forks`, no fork contributes. */
  lemma ForksSkipped(repos: seq<Repository>, startDate: string, endDate: string, ghe: string)
    requires forall i :: 0 <= i < |repos| ==> repos[i].fork
    ensures PerRepoLists(repos, startDate, endDate, false, ghe) == []
  {
    PerRepoListsMeaning(repos, startDate, endDate, false, ghe);
  }

  /**
   * `get_all_contributors`: choose the repositories, collect the
   * per-repository lists, and hand them to `merge`, which stands for
   * `contributor_stats.merge_contributors`.
   */
  method GetAllContributors(organization: Option<string>, repositoryList: seq<string>,
                            startDate: string, endDate: string, conn: Connection,
                            includeForks: bool, ghe: string,
                            merge: seq<seq<ContributorStats>> -> seq<ContributorStats>)
    returns (r: Result<seq<ContributorStats>, SourceError>)
    ensures RepositorySource(organization, repositoryList, conn).Err? ==>
              r == Err(RepositorySource(organization, repositoryList, conn).error)
    ensures RepositorySource(organization, repositoryList, conn).Ok? ==>
              r == Ok(merge(PerRepoLists(RepositorySource(organization, repositoryList, conn).value,
                                         startDate, endDate, includeForks, ghe)))
  {
    var source := ResolveRepositories(organization, repositoryList, conn);
    if source.Err? {
      return Err(source.error);
    }
    var allContributors := CollectPerRepo(source.value, startDate, endDate, includeForks, ghe);
    return Ok(merge(allContributors));
  }
}
