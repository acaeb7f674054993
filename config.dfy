/** `src/config.rs`: the older form of the configuration, whose `Repo` record is the one
    the request middleware looks repositories up in. */
module Config {
  import opened Wrappers
  import opened Ascii
  import opened Search
  import Git = Repository
  import Settings = Configuration

  /** A served repository as `config.rs` describes it; the same fields as `GitRepository`. */
  datatype Repo = Repo(
    name: string,
    url: string,
    user_name: string,
    password: string,
    refresh_interval: Git.u64,
    credentials: Option<seq<Git.Credential>>)

  /** The loaded configuration; it is never modified after loading. */
  datatype Configuration = Configuration(
    name: string,
    network: Settings.Net,
    repositories: seq<Repo>)

  /** `Configuration::repository`: the first repository, in list order, whose name equals
      `name` ignoring ASCII case; `None` when there is none. */
  function Repository(config: Configuration, name: string): (found: Option<Repo>)
    ensures found.Some? ==> found.value in config.repositories && EqIgnoreAsciiCase(found.value.name, name)
    ensures found.Some? ==> exists i :: (0 <= i < |config.repositories| && config.repositories[i] == found.value &&
      forall j :: 0 <= j < i ==> !EqIgnoreAsciiCase(config.repositories[j].name, name))
    ensures found.None? <==> forall r :: r in config.repositories ==> !EqIgnoreAsciiCase(r.name, name)
  {
    var repos := config.repositories;
    match FindIndex(repos, (r: Repo) => EqIgnoreAsciiCase(r.name, name))
    case None => None
    case Some(i) => Some(repos[i])
  }

  /** The lookup ignores ASCII case in the query. */
  lemma RepositoryIgnoresQueryCase(config: Configuration, a: string, b: string)
    requires EqIgnoreAsciiCase(a, b)
    ensures Repository(config, a) == Repository(config, b)
  {
    var repos := config.repositories;
    forall k | 0 <= k < |repos| ensures EqIgnoreAsciiCase(repos[k].name, a) == EqIgnoreAsciiCase(repos[k].name, b) {
      EqIgnoreAsciiCaseSymmetric(a, b);
      if EqIgnoreAsciiCase(repos[k].name, a) { EqIgnoreAsciiCaseTransitive(repos[k].name, a, b); }
      if EqIgnoreAsciiCase(repos[k].name, b) { EqIgnoreAsciiCaseTransitive(repos[k].name, b, a); }
    }
    FindIndexAgrees(repos, (r: Repo) => EqIgnoreAsciiCase(r.name, a), (r: Repo) => EqIgnoreAsciiCase(r.name, b));
  }

  /** When two configured names match the query, the one listed first wins. */
  lemma FirstListedWins(config: Configuration, name: string, i: nat, j: nat)
    requires i < j < |config.repositories|
    requires EqIgnoreAsciiCase(config.repositories[i].name, name)
    requires forall k :: 0 <= k < i ==> !EqIgnoreAsciiCase(config.repositories[k].name, name)
    requires EqIgnoreAsciiCase(config.repositories[j].name, name)
    ensures Repository(config, name) == Some(config.repositories[i])
    ensures config.repositories[j] != config.repositories[i] ==> Repository(config, name) != Some(config.repositories[j])
  {
  }

  /** The repository record seen as the `GitRepository` of the same fields. */
  function AsGitRepository(r: Repo): (g: Git.GitRepository)
    ensures g.name == r.name && g.credentials == r.credentials
  {
    Git.GitRepository(r.name, r.url, r.user_name, r.password, r.refresh_interval, r.credentials)
  }

  /** `Repo::is_acces_granted`, which the middleware calls but which is not defined in the
      code of the repository: given the behaviour of `GitRepository::is_granted_for`. */
  function IsAccessGranted(r: Repo, login: string, password: string): bool
  {
    Settings.IsGrantedFor(AsGitRepository(r), login, password)
  }
}
