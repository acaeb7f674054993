# rs-configserver, modelled in Dafny

rs-configserver is a small configuration server. It serves files from configured git
repositories over HTTP, guarded by HTTP Basic credentials, and substitutes encrypted
`{enc:...}` secrets in the files it loads. This project models and proves the three pieces of
logic that sit under the actix and git2 plumbing:

- **The request decision** (`src/middleware.rs`). This is a pure function from the optional
  `Authorization` header, the request path and the loaded configuration to an outcome:
  - 401 carrying the `WWW-Authenticate: Basic realm="ConfigServer", charset="UTF-8"` challenge;
  - 404;
  - 200 with body `Hey there!`;
  - or a worker panic at one of the `unwrap`s or at the `login_pwd[1]` index. The panic is an
    explicit `Panicked(reason)` outcome that names the step that failed.
- **Registry lookup and access rule** (`src/configuration.rs` and its older twin `src/config.rs`).
  - The lookup takes the first repository whose name equals the query, ignoring ASCII case.
  - The access rule: a repository with no credential list is open. Otherwise the first entry
    whose user name matches, ignoring ASCII case, decides, and its password must be exactly equal.
- **Secret substitution** (`load_file` in `src/repository.rs`). This is an imperative method.
  It holds the content in a variable and rewrites it in a loop over the matches of
  `\{enc:.*?\}` found in the original content. For each match in turn, every occurrence of its
  text in the current content is replaced, as `String::replace` does. The replacement is
  `decrypt(key, payload)`, or the bare payload when decryption fails.
  - The regex is modelled exactly: leftmost-first, lazy, `.` not matching a newline, and
    successive matches not overlapping. Lemmas prove it equal to its definition.
  - The matches come from the original content, but the replacements act on the current one.
    The model proves that the result is that of replacing each match where it stands in two
    cases: when every `{` of the content opens a match and no replacement contains a `{`
    (`Repository.SubstitutedIsPositional`), and when the content has a single match, whatever
    other braces it holds (`Repository.SingleMatchSubstituted`, `Repository.SingleMatchPositional`).
    Three inputs where the results differ are under "## Findings".

Modules:
- `Wrappers`: `Option` and `Result`.
- `Ascii`: `eq_ignore_ascii_case`.
- `Search`: `Iterator::find`.
- `Strings`: `str::split` on a char.
- `Repository`, `Configuration`, `Config`, `Middleware`: one per source file.

Behaviour of the code that the model follows as written:
- A token that fails to decrypt becomes its bare payload. It is neither left intact nor does
  it fail the request.
- A request that passes every check gets `Hey there!`. The forwarding to the inner service is
  commented out, so no file content is served.
- A malformed `Authorization` header makes the worker panic. No 401 is sent for it.
- The middleware calls `repo_with_name` and `is_acces_granted` on `config::Configuration` and
  `Repo`, but neither is defined in the code. They are given the meaning of
  `Configuration::repository` (`Config.Repository`) and of `GitRepository::is_granted_for`
  (`Config.IsAccessGranted`).
- `split(":")` keeps every piece, but only `login_pwd[0]` and `login_pwd[1]` are read
  (`src/middleware.rs:167-168`). So a password that contains a `:` is cut at it
  (`Middleware.PasswordEndsAtSecondColon`).

## Model

| member | source | states |
|---|---|---|
| Ascii.ToAsciiLowercase | src/configuration.rs:46 | an ASCII capital is mapped to its small letter, 32 code points up; every other character is kept |
| Ascii.EqIgnoreAsciiCaseReflexive | src/configuration.rs:46 | every name matches itself ignoring ASCII case |
| Ascii.EqIgnoreAsciiCaseSymmetric | src/configuration.rs:46 | case-insensitive name equality is symmetric |
| Ascii.EqIgnoreAsciiCaseTransitive | src/configuration.rs:46 | case-insensitive name equality is transitive |
| Ascii.FoldingIdentifiesOnlyCaseTwins | src/configuration.rs:46 | two characters fold to the same lowercase only when they are equal, or are the upper- and lowercase forms of one ASCII letter |
| Search.FindIndex | src/configuration.rs:44-46 | `find` gives the least index whose element satisfies the predicate, and gives `None` exactly when no element does |
| Search.FindIndexAgrees | src/configuration.rs:46 | two predicates with the same verdict on every element find the same element |
| Strings.Split | src/middleware.rs:164 | `split` gives at least one piece; the first piece is the text before the first separator; no piece contains the separator; there is a single piece exactly when the separator does not occur |
| Strings.SplitSecond | src/middleware.rs:173 | when the separator occurs there are at least two pieces, and the second is the text between the first and the second separator |
| Strings.JoinSplit | src/middleware.rs:173 | joining the pieces with the separator gives back the input |
| Strings.SplitJoin | src/middleware.rs:173 | splitting a join of separator-free pieces gives back the pieces |
| Repository.StopAt | src/repository.rs:80 | the lazy `.*?\}` scan stops at the first `}` or newline; nothing before that position is either |
| Repository.TokenAt | src/repository.rs:80 | a match that starts at `i` ends at least six characters later, within the content |
| Repository.TokenAtExactly | src/repository.rs:80 | a match starts at `i` exactly when `{enc:` is at `i` and a `}` follows with no newline before it |
| Repository.TokenStopsAtNewline | src/repository.rs:80 | a newline before the first `}` leaves no match at that position |
| Repository.Matches | src/repository.rs:82 | every match found starts at a match position and ends where the lazy scan closes it; matches are in order and do not overlap |
| Repository.MatchesAreLeftmost | src/repository.rs:82 | no match is skipped before the first match, between two matches or after the last, so the list is exactly the leftmost-first non-overlapping matches |
| Repository.Tokens | src/repository.rs:82-83 | each match text starts with `{enc:`, ends with `}` and has no `}` or newline inside |
| Repository.Texts | src/repository.rs:82 | one text per match, the content between its start and end |
| Repository.PayloadBetweenDelimiters | src/repository.rs:83 | `&cap[1][5..len - 1]` takes off exactly the `{enc:` and the `}`, and the payload holds no `}` and no newline |
| Repository.ReplacementOfPayload | src/repository.rs:84 | `unwrap_or(enc)`: the token of a payload is replaced by the decryption when there is one, and by that payload when decryption fails |
| Repository.ReplaceFromSkip | src/repository.rs:86 | `replace` copies unchanged every stretch in which the pattern does not occur |
| Repository.ReplaceAllFirst | src/repository.rs:86 | `replace` copies the text before the first occurrence, writes the replacement, and continues after the occurrence |
| Repository.ReplaceAllAbsent | src/repository.rs:86 | `replace` of a pattern that does not occur changes nothing |
| Repository.TwoOccurrencesReplaced | src/repository.rs:86 | `replace` rewrites both of two occurrences and keeps the text between them |
| Repository.LoadFile | src/repository.rs:66-90 | an unreadable file gives `None`, a readable one always gives `Some`; the loop body replaces each match of the original content in turn, so the result is the substitution of every match of the original content |
| Repository.SubstitutedWithoutTokens | src/repository.rs:80-89 | content with no match is returned unchanged |
| Repository.LoneTokenSubstituted | src/repository.rs:82-86 | a token around which no other match starts is replaced by its replacement, and the text around it is kept even when it holds `{` |
| Repository.SingleMatchSubstituted | src/repository.rs:80-89 | content whose only match is the token at `a` becomes the text before it, its replacement and the text after it |
| Repository.SingleMatchPositional | src/repository.rs:80-89 | on such content, replacing the match where it stands gives the same text |
| Repository.DecryptedTokenReplaced | src/repository.rs:83-86 | a token whose payload decrypts to `D`, with no other match around it, is replaced by `D` |
| Repository.FailedTokenBecomesPayload | src/repository.rs:84 | a token whose payload fails to decrypt, with no other match around it, is replaced by the bare payload, not left intact |
| Repository.TokenInsideJsonObject | src/repository.rs:80-89 | `{"a":"{enc:X}"}` with `X` decrypting to `D` becomes `{"a":"D"}`, as it would positionally, although its outer braces open no match |
| Repository.SubstitutionNotRescanned | src/repository.rs:82 | a decryption that itself looks like a token is not rescanned: the file that is one token becomes exactly the decryption |
| Repository.RepeatedTokenSubstituted | src/repository.rs:86 | both copies of a repeated token are replaced, and the second match finds nothing left to replace |
| Repository.GapThenTwice | src/repository.rs:82-87 | a stretch without a match followed by a token twice: the first round replaces both copies, and the second round replaces again in what the first produced |
| Repository.TokenShape | src/repository.rs:83 | `{enc:P}` with `P` free of `}` and newline is a token whose payload is `P` |
| Repository.PositionalWithoutMatches | src/repository.rs:80-89 | replacing matches where they stand leaves content without a match unchanged |
| Repository.PositionalAtFirstMatch | src/repository.rs:82-86 | replacing matches where they stand keeps the text before the first match, turns that match into its replacement, and handles the rest on its own |
| Repository.TokensArePieces | src/repository.rs:82 | the matched token texts are, in order, the token pieces when the content is cut at its matches |
| Repository.ReplaceOverPieces | src/repository.rs:86 | over content in which every `{` opens a match, `replace` of a token rewrites exactly the matches that are that token |
| Repository.ApplyOverPieces | src/repository.rs:82-87 | under the same condition, and with replacements free of `{`, the loop rewrites each match independently of the others |
| Repository.SubstitutedIsPositional | src/repository.rs:80-89 | when every `{` of the content opens a match and no replacement holds a `{`, `load_file`'s result is each match replaced where it stands |
| Repository.LoadFilePositional | src/repository.rs:66-90 | the corrected substitution: an unreadable file gives `None`; otherwise a single left-to-right pass replaces each match where it stands |
| Repository.EarlierReplaceBreaksLaterMatch | src/repository.rs:82-87 | for `{enc:a} {enc:b{enc:a}` with both decryptions failing, `load_file` gives `a {enc:ba`, while replacing each match where it stands gives `a b{enc:a` |
| Repository.LaterReplaceRewritesPlaintext | src/repository.rs:82-87 | for `{enc:a}{enc:b}` with `a` decrypting to `{enc:b}` and `b` to `B`, `load_file` gives `BB`, while replacing each match where it stands gives `{enc:b}B` |
| Repository.ReplacementCompletesToken | src/repository.rs:82-87 | for `{en{enc:b}{enc:b}` with `b` decrypting to `c:b}`, `load_file` gives `c:b}c:b}`, while replacing each match where it stands gives `{enc:b}c:b}` |
| Configuration.Repository | src/configuration.rs:43-47 | `Some(r)` only for an `r` of the list whose name matches ignoring ASCII case, with no earlier match; `None` exactly when no name matches |
| Configuration.IsGrantedFor | src/configuration.rs:90-105 | with no list, everyone is granted; otherwise, access is granted exactly when there is a first entry matching the user ignoring ASCII case, and its password is equal |
| Configuration.RepositoryIgnoresQueryCase | src/configuration.rs:46 | queries that differ only in ASCII case find the same repository |
| Configuration.EmptyListDeniesEveryone | src/configuration.rs:96-102 | `Some([])` denies every user |
| Configuration.UnknownUserDenied | src/configuration.rs:96-102 | a user matching no entry is denied whatever the password |
| Configuration.UserNameIgnoresCase | src/configuration.rs:98 | user names that differ only in ASCII case get the same decision |
| Configuration.PasswordIsExact | src/configuration.rs:104 | with a list, at most one password is accepted for a user |
| Configuration.FirstEntryShadowsLater | src/configuration.rs:96-104 | when the first entry matches the user and its password differs, access is denied, even if a later entry would accept it |
| Config.Repository | src/config.rs:49-53 | `Some(r)` only for an `r` of the list whose name matches ignoring ASCII case, with no earlier match; `None` exactly when no name matches |
| Config.RepositoryIgnoresQueryCase | src/config.rs:52 | queries that differ only in ASCII case find the same repository |
| Config.FirstListedWins | src/config.rs:52 | when two names match, the one listed first is returned, and a different later one is not |
| Config.AsGitRepository | src/config.rs:19-26 | a `Repo` seen as a `GitRepository` keeps its name and credential list |
| Middleware.NotFoundResponse | src/middleware.rs:69-80 | 404, no header, empty body |
| Middleware.UnauthorizedResponse | src/middleware.rs:82-98 | 401 whose only header is the Basic challenge |
| Middleware.OkResponse | src/middleware.rs:142 | 200 with body `Hey there!` |
| Middleware.DecodedCredentials | src/middleware.rs:159-163 | the outcome for each step, each as an if-and-only-if: a non-visible-ASCII header panics in `to_str`; a missing `Basic ` prefix panics in `strip_prefix`; a non-base64 payload panics; bytes that are not UTF-8 panic; otherwise the text is the UTF-8 decoding of the base64 decoding of what follows the prefix |
| Middleware.SplitCredentials | src/middleware.rs:164-168 | the split panics exactly when the credentials have no `:`; otherwise login and password are colon-free, and the credentials start with `login:password` followed by nothing or by `:` |
| Middleware.CredentialsRoundTrip | src/middleware.rs:164-168 | `login:password` with colon-free parts splits back into that login and password |
| Middleware.PasswordEndsAtSecondColon | src/middleware.rs:164-168 | whatever follows a second `:` is dropped |
| Middleware.IsRequestAuthorized | src/middleware.rs:154-170 | no header exactly when the result is Unauthorized; a decoding failure panics with that step's reason; decoded credentials without `:` panic at the index; with a `:`, the result is Authorized with the first two pieces of the split |
| Middleware.BasicHeaderAuthorizes | src/middleware.rs:159-168 | `Basic <b64>` whose payload decodes to `login:password` authorizes that login and password |
| Middleware.ExtraColonDropped | src/middleware.rs:159-168 | `Basic <b64>` whose payload decodes to `login:password:extra` authorizes `login` with `password` |
| Middleware.ParseQuery | src/middleware.rs:172-183 | Invalid exactly when the path has no `/`; otherwise the repository is the text between the first and the second `/`, and path and branch are `" "` |
| Middleware.ParseQueryTakesSecondElement | src/middleware.rs:173-179 | the repository is the second element of the `/` split |
| Middleware.RouteNamesRepository | src/middleware.rs:172-183 | `/<name>` and `/<name>/...` route to `<name>` |
| Middleware.Call | src/middleware.rs:113-151 | no header gives 401 for any path and configuration; a panic needs a header; every answer is the 401, 404 or 200 one; every 401 carries the challenge; a 200 needs a route, a found repository and a header; a 404 means no route or no repository |
| Middleware.CallSteps | src/middleware.rs:121-143 | with credentials and a route: an unknown repository gives 404; a known one gives 200 when it grants and 401 when it does not |
| Middleware.OkExactlyWhenGranted | src/middleware.rs:116-143 | 200 exactly when the header yields credentials, the path has a route, the repository exists and grants those credentials |
| Middleware.UnauthorizedExactly | src/middleware.rs:116-140 | 401 exactly when there is no header, or the found repository refuses valid credentials |
| Middleware.NotFoundExactly | src/middleware.rs:121-134 | 404 exactly when credentials are present and the route is missing or names no repository |
| Middleware.PanicsExactlyOnMalformedHeader | src/middleware.rs:116-168 | the worker panics exactly when a present header does not yield credentials, and for that step's reason |
| Middleware.InvisibleHeaderPanics | src/middleware.rs:160 | a header with a non-visible-ASCII character panics in `to_str` |
| Middleware.NonBasicHeaderPanics | src/middleware.rs:161 | a header without the `Basic ` prefix panics |
| Middleware.InvalidBase64Panics | src/middleware.rs:162 | a payload that is not base64 panics |
| Middleware.InvalidUtf8Panics | src/middleware.rs:163 | decoded bytes that are not UTF-8 panic |
| Middleware.MissingColonPanics | src/middleware.rs:164-168 | decoded credentials without `:` panic at `login_pwd[1]` |
| Middleware.BobScenario | src/middleware.rs:113-143 | `GET /alpha/app.yml` as `bob:secret` gets 200 when `alpha` lists bob with secret |
| Middleware.AliceScenario | src/middleware.rs:138-140 | the same request as `alice:wrong` gets 401 |
| Middleware.UnknownRepositoryScenario | src/middleware.rs:130-134 | `GET /unknown/app.yml` with valid credentials gets 404 |

## Findings

| source | as written | input that shows it | evidently intended | confidence | as-written member | corrected member |
|---|---|---|---|---|---|---|
| src/repository.rs:82-87 | each match of the original content is replaced everywhere in the current content, one match after the other | `{enc:a} {enc:b{enc:a}`, neither payload decrypting: the first replacement also rewrites the tail of the second token, which then no longer occurs; the result is `a {enc:ba` | each match replaced by its own replacement where it stands: `a b{enc:a` | medium, not executed | Repository.EarlierReplaceBreaksLaterMatch | Repository.LoadFilePositional |
| src/repository.rs:82-87 | each match of the original content is replaced everywhere in the current content, one match after the other | `{enc:a}{enc:b}`, `a` decrypting to `{enc:b}` and `b` to `B`: the plaintext of the first token is rewritten by the second replacement; the result is `BB` | a decrypted value is final: `{enc:b}B` | medium, not executed | Repository.LaterReplaceRewritesPlaintext | Repository.LoadFilePositional |
| src/repository.rs:82-87 | each match of the original content is replaced everywhere in the current content, one match after the other | `{en{enc:b}{enc:b}`, `b` decrypting to `c:b}`: the first round turns `{en` and the first plaintext into a new `{enc:b}`, which the second round for the same token replaces; the result is `c:b}c:b}` | text before a token is kept: `{enc:b}c:b}` | medium, not executed | Repository.ReplacementCompletesToken | Repository.LoadFilePositional |

`Repository.LoadFile` still models the loop as written. `Repository.LoadFilePositional` and
`Repository.Positional` give the intended result: `Repository.PositionalAtFirstMatch` and
`Repository.PositionalWithoutMatches` state it match by match. `Repository.SubstitutedIsPositional`
shows that the two agree on content in which every `{` opens a match and the replacements hold no
`{`. That holds, for example, for a file whose only braces are those of tokens with base64
payloads, when no plaintext holds a `{`. `Repository.SingleMatchSubstituted` and
`Repository.SingleMatchPositional` show that they also agree on content with a single match,
such as a JSON or YAML file with one secret (`Repository.TokenInsideJsonObject`).

## Left out

- Watchers and git: `GitRepository::create_watcher` (`src/repository.rs:40-63`) and `src/repo.rs` run OS threads, sleep loops and git2 clone and fetch. They are concurrency and a foreign library.
- Cryptography: `src/crypto.rs`, `src/crypt.rs` and `src/handlers.rs` wrap an AES library. Decryption is an uninterpreted partial function, the `decrypt` parameter of `Repository.LoadFile`. `decrypt_base64_string`, which `src/repository.rs:12` imports, is not part of this model.
- Base64 and UTF-8 decoding: these are library calls. They are the `Codecs` parameter of `Middleware.Call`, each `None` where the library reports an error.
- Configuration loading: `load` and `resolve_path` in both configuration files are file I/O, environment variables and YAML parsing.
- Bootstrap: `src/main.rs` and `src/mainmain.rs` are process start and logging.
- Framework types: the actix `Transform`/`Service` plumbing, futures, the forwarding to the inner service and the request object. They are reduced to `Middleware.Request` and `Middleware.Outcome`.
- Repository.LoadFile: the path join at `src/repository.rs:68` and the file read are left out. The read is an `Option<string>` input, and nothing is claimed about path containment, which the source does not check. Logging is left out too.
- Repository.LoadFile: strings are sequences of characters. The regex and `replace` work on Unicode scalars, which give the same matches as on UTF-8 bytes.
- Config.Repository and Configuration.Repository: "does not modify the configuration" is not stated. Both are pure functions of an immutable value, so there is nothing left to state.
- Config.IsAccessGranted: `is_acces_granted` is not defined in the code. It is modelled as `Configuration.IsGrantedFor` on the repository's fields and carries no contract of its own.
- Config.Repo: the `Credential` and `Net` records of `src/config.rs` have the same fields as those of `src/repository.rs` and `src/configuration.rs`, so the model shares one definition of each.
- Middleware.DecodedCredentials: `HeaderValue::to_str` is modelled as accepting the tab and the characters from space to `~`. Only the first `Authorization` header value is read, as `headers().get` does.
- Repository.LoneTokenSubstituted: stated only for a token around which no other match starts. With further matches, content in which every `{` opens a match is covered by `Repository.SubstitutedIsPositional`; on other content the result can differ from the positional one (see "## Findings").
- Repository.DecryptedTokenReplaced: stated only for a token around which no other match starts. With another token around, the claim can fail in the code, for example when the plaintext holds the other token: a later replacement then rewrites the plaintext (`Repository.LaterReplaceRewritesPlaintext`).
- Repository.FailedTokenBecomesPayload: stated only for a token around which no other match starts. With another token around, the claim can fail in the code, for example when an earlier token occurs inside this one: its replacement then breaks this token before it is reached (`Repository.EarlierReplaceBreaksLaterMatch`).
- Repository.RepeatedTokenSubstituted: stated only for surroundings without `{` and a replacement without `{`. With a `{` that opens no match before a copy, the first round can join it to the plaintext into a new copy of the token, which the second round replaces again (`Repository.ReplacementCompletesToken`); `Repository.GapThenTwice` states what happens then.
- Repository.Positional, Repository.Payload, Repository.Replacement, Repository.ReplaceAll, Repository.ReplaceFrom, Repository.ApplyAll, Repository.Substituted: these functions carry no contract of their own. The lemmas listed in "## Model" state their properties: `ReplaceAllFirst`, `ReplaceAllAbsent`, `ReplaceFromSkip`, `PayloadBetweenDelimiters`, `ReplacementOfPayload`, `ApplyOverPieces`, `SubstitutedIsPositional`, `SingleMatchSubstituted`, `PositionalWithoutMatches` and `PositionalAtFirstMatch`.
- Middleware.Call: the unused `path` and `branch` and the commented-out forwarding are not modelled.
