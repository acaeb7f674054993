/** `src/configuration.rs`: the service configuration, the lookup of a repository by
    name and the per-repository access rule. */
module Configuration {
  import opened Wrappers
  import opened Ascii
  import opened Search
  // Aliased because this module declares a function named `Repository`.
  import opened RepositoryRecords = Repository

  /** Rust's `u16`. */
  newtype u16 = x: int | 0 <= x < 0x1_0000

  /** Where the server listens. */
  datatype Net = Net(host: string, port: u16)

  /** The loaded configuration; it is never modified after loading. */
  datatype Configuration = Configuration(
    name: string,
    encryption_key: string,
    network: Net,
    repositories: seq<GitRepository>)

  /** `Configuration::repository`: the first repository, in list order, whose name equals
      `name` ignoring ASCII case; `None` when there is none. */
  function Repository(config: Configuration, name: string): (found: Option<GitRepository>)
    ensures found.Some? ==> found.value in config.repositories && EqIgnoreAsciiCase(found.value.name, name)
    ensures found.Some? ==> exists i :: (0 <= i < |config.repositories| && config.repositories[i] == found.value &&
      forall j :: 0 <= j < i ==> !EqIgnoreAsciiCase(config.repositories[j].name, name))
    ensures found.None? <==> forall r :: r in config.repositories ==> !EqIgnoreAsciiCase(r.name, name)
  {
    var repos := config.repositories;
    match FindIndex(repos, (r: GitRepository) => EqIgnoreAsciiCase(r.name, name))
    case None => None
    case Some(i) => Some(repos[i])
  }

  /** `GitRepository::is_granted_for`: with no credential list everyone is granted; otherwise
      the first entry whose user name equals `user` ignoring ASCII case decides, and only when
      its password is exactly `password`. */
  function IsGrantedFor(repo: GitRepository, user: string, password: string): (granted: bool)
    ensures repo.credentials.None? ==> granted
    ensures repo.credentials.Some? ==> var users := repo.credentials.value;
      granted <==> exists i :: (0 <= i < |users| && EqIgnoreAsciiCase(users[i].user_name, user) &&
        (forall j :: 0 <= j < i ==> !EqIgnoreAsciiCase(users[j].user_name, user)) &&
        users[i].password == password)
  {
    match repo.credentials
    case None => true
    case Some(users) =>
      match FindIndex(users, (c: Credential) => EqIgnoreAsciiCase(c.user_name, user))
      case None => false
      case Some(i) => users[i].password == password
  }

  /** The lookup ignores ASCII case in the query: two queries that differ only in letter case find the same repository. */
  lemma RepositoryIgnoresQueryCase(config: Configuration, a: string, b: string)
    requires EqIgnoreAsciiCase(a, b)
    ensures Repository(config, a) == Repository(config, b)
  {
    var repos := config.repositories;
    forall k | 0 <= k < |repos| ensures EqIgnoreAsciiCase(repos[k].name, a) == EqIgnoreAsciiCase(repos[k].name, b) {
      EqIgnoreAsciiCaseSymmetric(a, b);
      if EqIgnoreAsciiCase(repos[k].name, a) { EqIgnoreAsciiCaseTransitive(repos[k].name, a, b); }
      if EqIgnoreAsciiCase(repos[k].name, b) { EqIgnoreAsciiCaseTransitive(repos[k].name, b, a); }
    }
    FindIndexAgrees(repos, (r: GitRepository) => EqIgnoreAsciiCase(r.name, a), (r: GitRepository) => EqIgnoreAsciiCase(r.name, b));
  }

  /** An empty credential list denies everyone. */
  lemma EmptyListDeniesEveryone(repo: GitRepository, user: string, password: string)
    requires repo.credentials == Some([])
    ensures !IsGrantedFor(repo, user, password)
  {
  }

  /** A user name with no matching entry is denied whatever the password. */
  lemma UnknownUserDenied(repo: GitRepository, user: string, password: string)
    requires repo.credentials.Some?
    requires forall c :: c in repo.credentials.value ==> !EqIgnoreAsciiCase(c.user_name, user)
    ensures !IsGrantedFor(repo, user, password)
  {
  }

  /** User names compare ignoring ASCII case. */
  lemma UserNameIgnoresCase(repo: GitRepository, u: string, v: string, password: string)
    requires EqIgnoreAsciiCase(u, v)
    ensures IsGrantedFor(repo, u, password) == IsGrantedFor(repo, v, password)
  {
    if repo.credentials.Some? {
      var users := repo.credentials.value;
      forall k | 0 <= k < |users| ensures EqIgnoreAsciiCase(users[k].user_name, u) == EqIgnoreAsciiCase(users[k].user_name, v) {
        EqIgnoreAsciiCaseSymmetric(u, v);
        if EqIgnoreAsciiCase(users[k].user_name, u) { EqIgnoreAsciiCaseTransitive(users[k].user_name, u, v); }
        if EqIgnoreAsciiCase(users[k].user_name, v) { EqIgnoreAsciiCaseTransitive(users[k].user_name, v, u); }
      }
      FindIndexAgrees(users, (c: Credential) => EqIgnoreAsciiCase(c.user_name, u), (c: Credential) => EqIgnoreAsciiCase(c.user_name, v));
    }
  }

  /** Passwords compare exactly: when a list is configured, at most one password is accepted for a user. */
  lemma PasswordIsExact(repo: GitRepository, user: string, p: string, q: string)
    requires repo.credentials.Some?
    requires IsGrantedFor(repo, user, p) && IsGrantedFor(repo, user, q)
    ensures p == q
  {
  }

  /** Only the first matching entry is consulted: a later duplicate user name with the right password does not grant access. */
  lemma FirstEntryShadowsLater(repo: GitRepository, user: string, password: string)
    requires repo.credentials.Some? && |repo.credentials.value| > 0
    requires EqIgnoreAsciiCase(repo.credentials.value[0].user_name, user)
    requires repo.credentials.value[0].password != password
    ensures !IsGrantedFor(repo, user, password)
  {
  }
}
