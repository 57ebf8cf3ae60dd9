# pr_watcher_notifier: the notification decision, in Dafny

`pr_watcher_notifier` is a small web service that receives GitHub
pull-request webhooks and e-mails the people watching a repository when a
pull request touches files they watch. This project models the decision
logic of its view module, `pr_watcher_notifier/views.py`, and proves
properties of it:

- **watch-config resolution** (`get_repo_watch_config`): which entry of the
  watch configuration applies to a repository, and whether it was reached
  through an org wildcard key such as `a/*`;
- **the notify decision** (`should_send_notification`): whether an event
  warrants a notification, and which file triggered it, including the
  private-repository gate and the dedup pass for `synchronize` events;
- **the handler's status codes** (`handler`): 400, 200 or 201, and the 500
  that follows when the mailer cannot find the repository's own key;
- **the glob test** they all rely on, Python's `fnmatch.fnmatch`, written as
  a recursive matcher (module `Glob`).

The GitHub calls become inputs. The pull request's file names are an
`Option<seq<string>>`: `None` when `get_pr` raised. The comparison between
the target branch and the previous head is a plain `seq<string>`, because
`get_comparison_file_names` (pr_watcher_notifier/github_api.py:48-57)
already answers `[]` when its fetch fails; so a failed comparison does not
silence a notification. The watch configuration is a sequence of
`(key, config)` pairs, because the iteration order of the Python mapping
decides which wildcard key wins. `ShouldSendNotification` also returns the
list of code-host calls it made: the pull request (`get_pr`), its file
listing (`pr.get_files()`) and the comparison. So "no fetch happens" can be
stated. Whether the mailer raises is an input of the handler too.

Files:

- `wrappers.dfy`: module `Wrappers`, the `Option` type.
- `glob.dfy`: module `Glob`. `Translate` turns a pattern into tokens, as
  `fnmatch.translate` does. `TokensMatch` matches a whole name against
  them. The matcher supports literals, `?`, `*` (which crosses `/`), and
  bracket classes `[seq]`/`[!seq]` with ranges. It has no backslash
  escaping and no case folding.
- `views.dfy`: module `Views`. Each of the three operations is a method
  with the source's loops, proved against a pure specification function
  (`Resolution`, `Decide`, `StatusCode`). Lemmas state the source's
  promises about those functions.
- `scenarios.dfy`: module `ViewsScenarios`, the test suite's scenarios
  stated as lemmas.

Points about the code's behaviour:

- The code has no exclude lists. `get_repo_watch_config` never reads an
  `exclude` key, so a configured exclusion has no effect.
- A matching file is recorded once for every pattern it matches.
- The pull request is fetched before the private-repository gate is
  checked. The answer is `(False, [])` either way.
- A key counts as exact when it does not contain a slash followed by a
  star. This is a substring test, so `a/b?` is exact.

## Model

| member | source | states |
|---|---|---|
| `Views.GetRepoWatchConfig` | pr_watcher_notifier/views.py:26-39 | the loop with its early `break` answers exactly `Resolution`: the first matching exact key with the flag off, else the last matching key with the flag on, else `{}` and off |
| `Views.FirstExactMatch` | pr_watcher_notifier/views.py:32-37 | the position found holds a matching key without a slash-star, and no earlier key is a matching exact one; `None` means no key anywhere is |
| `Views.LastMatch` | pr_watcher_notifier/views.py:32-38 | the position found holds a matching key and no later key matches; `None` means no key matches |
| `Views.ExactMatchWins` | pr_watcher_notifier/views.py:32-37 | a matching exact key is returned with the flag off even when wildcard keys matched before it, and whatever keys follow it do not change the answer |
| `Views.OnlyWildcardsLastWins` | pr_watcher_notifier/views.py:30-39 | with no matching exact key, the last matching key in mapping order is a wildcard key and is returned with the flag on; with no match at all the answer is `({}, False)` |
| `Views.ResolutionFromMatchingKey` | pr_watcher_notifier/views.py:30-39 | every answer is either `({}, False)` with no key matching, or the config of some matching key with the flag telling whether that key contains a slash-star |
| `Views.ShouldSendNotification` | pr_watcher_notifier/views.py:42-89 | the nested loops answer exactly `Decide`; no code-host call is made iff the action is unsupported; the file listing is fetched iff the action is supported, `get_pr` succeeded, the private gate is open and the config is a rule; the comparison is fetched iff the action is `synchronize` and a file matched |
| `Views.FirstMatchingFile` | pr_watcher_notifier/views.py:65-73 | the file found is the first, in pull-request order, that matches some pattern; `None` means no file matches any pattern |
| `Views.HitsPositive` | pr_watcher_notifier/views.py:67-71 | the number of patterns a file matches is positive iff it matches at least one |
| `Views.EarlyExits` | pr_watcher_notifier/views.py:46-64 | an action outside opened, closed, synchronize and reopened, a failed `get_pr`, or a closed private gate each give `(False, [])` |
| `Views.GateBypass` | pr_watcher_notifier/views.py:60-64 | with an exact match or `notify_for_private_repos` set to true, a private repository is decided as if it were public |
| `Views.MatchedFirstFile` | pr_watcher_notifier/views.py:65-75 | before the dedup pass a file matched iff the config is non-empty and some file matches some pattern; the list then holds only the first such file, once per pattern it matches, and is empty otherwise |
| `Views.DedupOverride` | pr_watcher_notifier/views.py:74-89 | on `synchronize`, notify is "a file matched and no comparison file matches a pattern"; the matched list never depends on the comparison, and no other action reads it |
| `Views.NotifyNamesFiles` | pr_watcher_notifier/views.py:65-89 | a notification always names at least one file, and every named file is a file of the pull request |
| `Views.StatusCode` | pr_watcher_notifier/views.py:97-121 | 400 iff the event header is missing, or the event is `pull_request` and the signature is invalid or the body is not JSON; for a `pull_request` event that passed those checks and is to be notified, 201 iff the mailer returns and 500 iff it raises; 200 otherwise |
| `Views.Handler` | pr_watcher_notifier/views.py:97-121 | the view resolves the repository's config, decides, and answers `StatusCode`, the mailer returning only when the exact repository name is a key and the `mailerReturns` input holds; the files are handed to the mailer iff the answer is 201, and that list is the decision's non-empty matched list |
| `Views.WildcardMatchHasNoKey` | pr_watcher_notifier/notification.py:31 | a repository name without glob characters that resolves through a wildcard key is no key of the configuration, so the mailer's lookup by that name fails |
| `Glob.Translate` | pr_watcher_notifier/views.py:33 | stands for `fnmatch.translate`, which the `fnmatch` call at this line runs on the key: every token uses up at least one pattern character |
| `Glob.TokensMatch` | pr_watcher_notifier/views.py:69 | stands for running the translated pattern on the whole file name, as the `fnmatch` call at this line does: without a `*` token, a match has exactly one character per token |
| `Glob.Fnmatch` | pr_watcher_notifier/views.py:86 | stands for `fnmatch.fnmatch`, called here on a comparison file: the empty pattern matches only the empty name, a lone `*` matches every name, and a pattern with no `*` outside a class matches no name longer than itself |
| `Glob.FindClose` | pr_watcher_notifier/views.py:33 | part of `fnmatch.translate`, which the `fnmatch` call at this line runs: the position found is the first `]` at or after the start; `None` means there is none |
| `Glob.FnmatchPlain` | pr_watcher_notifier/views.py:33 | a pattern without `*`, `?` or `[` matches exactly the name equal to it, case-sensitively |
| `Glob.TranslatePlainPrefix` | pr_watcher_notifier/views.py:69 | about `fnmatch.translate`, run by the `fnmatch` call at this line: translating a plain prefix followed by any pattern gives the prefix's literals followed by the pattern's tokens |
| `Glob.LiteralsThenMatch` | pr_watcher_notifier/views.py:69 | literal tokens consume exactly their own text from the front of the name |
| `Glob.AnyRunSplits` | pr_watcher_notifier/views.py:69 | a leading `*` matches iff the rest of the pattern matches some suffix of the name, whatever the skipped characters (slashes included) are |
| `Glob.FnmatchPrefixStar` | pr_watcher_notifier/views.py:69 | a plain prefix followed by `*` matches exactly the names that start with the prefix |
| `Glob.TranslateClass` | pr_watcher_notifier/views.py:69 | about `fnmatch.translate`, run by the `fnmatch` call at this line: a closed `[body]` or `[!body]` becomes one class token whose members are read from the body |
| `ViewsScenarios.DocumentsPattern` | pr_watcher_notifier/test_views.py:113-145 | `documents/*` matches `documents/file1.rst` and not `elsewhere/file2.py` or `code/module.py` |
| `ViewsScenarios.OrgInfixMatches` | pr_watcher_notifier/test_views.py:217-231 | `a/*bc*` matches `a/abcd` |
| `ViewsScenarios.InfixTailMatches` | pr_watcher_notifier/test_views.py:217-231 | the tail `*bc*` of that key matches `abcd` |
| `ViewsScenarios.OrgInfixMisses` | pr_watcher_notifier/test_views.py:234-249 | `a/*qq*` does not match `a/abcd` |
| `ViewsScenarios.ResolveOrgWildcard` | pr_watcher_notifier/test_views.py:200-214 | a lone `a/*` key resolves `a/abcd` with the flag on |
| `ViewsScenarios.ResolveExactOverWildcard` | pr_watcher_notifier/test_views.py:252-271 | the exact `a/abcd` key beats the earlier `a/*` key, with the flag off |
| `ViewsScenarios.ResolveTestSettings` | test_settings.py:4-18 | in the test settings, `a/b` and `c/d` resolve exactly, `b/c` through `b/*`, and an unknown repository to `{}` |
| `ViewsScenarios.ResolveTestA` | test_settings.py:5-8 | `a/b` resolves to its own entry with the flag off |
| `ViewsScenarios.ResolveTestB` | test_settings.py:9-12 | `b/c` resolves through `b/*` with the flag on |
| `ViewsScenarios.ResolveTestC` | test_settings.py:13-17 | `c/d` resolves to its own entry, with the opt-in, and the flag off |
| `ViewsScenarios.ResolveTestUnknown` | test_settings.py:4-18 | a repository no key matches resolves to `{}` with the flag off |
| `ViewsScenarios.OpenedScenarios` | pr_watcher_notifier/test_views.py:113-145 | an opened pull request touching `documents/` notifies, naming that file; one touching only code does not |
| `ViewsScenarios.SynchronizeScenarios` | pr_watcher_notifier/test_views.py:148-197 | an update is silenced when the earlier changes already touched `documents/`, and notified when they did not |
| `ViewsScenarios.PrivateScenarios` | pr_watcher_notifier/test_views.py:274-361 | a private repository is silenced through a wildcard key, and notified through an exact key or an explicit opt-in |
| `ViewsScenarios.WildcardRepoServerError` | pr_watcher_notifier/notification.py:31 | an opened pull request on `b/c` touching `documents/` is to be notified through `b/*`, but `b/c` is no key, so the handler answers 500 whatever the mailer would do next |
| `ViewsScenarios.ExactRepoMailerOutcome` | pr_watcher_notifier/notification.py:31-44 | an opened pull request on `a/b` touching `documents/` is to be notified and `a/b` is a key, so the answer is 201 iff the mailer returns and 500 iff it raises |
| `ViewsScenarios.HandlerScenarios` | pr_watcher_notifier/test_views.py:24-169 | no event header gives 400, another event 200, a bad signature or a non-JSON body 400; an opened pull request touching `documents/` notifies; an ignored action, a failed fetch or an update already notified does not |
| `ViewsScenarios.HandlerOpened` | pr_watcher_notifier/test_views.py:131-145 | an opened pull request on `a/b` touching `documents/` is to be notified |
| `ViewsScenarios.HandlerIgnored` | pr_watcher_notifier/test_views.py:78-110 | an ignored action or a failed `get_pr` is not notified |
| `ViewsScenarios.HandlerUpdateSilenced` | pr_watcher_notifier/test_views.py:148-169 | an update whose earlier changes touched `documents/` is not notified |

## Left out

- Flask mechanics are not modelled: routing, `abort`, `request.get_json` and logging (pr_watcher_notifier/views.py:15-23, 92-121). The header value, the signature check's verdict and the parsed body are inputs of `Views.Handler`.
- `github_api.py` is not part of this model: the PyGithub client and the HMAC-SHA1 signature check are foreign calls. Their outcomes are inputs. The target branch and the previous head only feed the comparison fetch, so they do not appear.
- `notification.py` is not part of this model beyond its lookup of the rule by the exact repository name (pr_watcher_notifier/notification.py:31), which `Views.IsKey` models. E-mail rendering and sending are left out. `Views.Handler` only reports the file list it hands over.
- Views.Handler: what `send_notifications` does after its key lookup is not modelled step by step. The `mailerReturns` input stands for all of it. The mailer raises, and the real view answers 500, when the entry has no `recipients` or no `subject` (pr_watcher_notifier/notification.py:39-40). It also raises when the subject names a field the context lacks (line 15), when the body template fails to render (line 16), or when the transport fails (line 22). The entries of the test settings carry no `subject`, so for them `mailerReturns` is false. The view tests mock the mailer, which is the `mailerReturns` true case. A `Views.RepoConfig` rule keeps only the fields the decision reads.
- Views.ShouldSendNotification: the file listing `pr.get_files()` (pr_watcher_notifier/views.py:66) is a separate call outside the `try` around `get_pr`. If it fails, the exception reaches the handler and the request ends as HTTP 500. `Some(files)` stands for a listing that succeeded; that failure is not modelled.
- Settings loading, the app factory and logging handlers (`settings.py`, `__init__.py`) are not modelled.
- A payload missing a required field raises `KeyError`, which surfaces as HTTP 500. This is an exception path, not decision logic. `Views.Payload` always carries its fields, and a `Views.RepoConfig` rule always has `patterns`.
- Exclude lists: `get_repo_watch_config` has no exclude handling, so none is modelled. The two exclude tests (pr_watcher_notifier/test_views.py:217-249) are only used for their glob facts.
- Glob.Translate: Python merges runs of `*` into one; the model keeps them, which matches the same names. Python removes reversed ranges by fusing their neighbours, and in rare patterns such as `[z-a!x]` this exposes a `!` that Python then reads as negation. The model reads such a class left to right and does not reproduce that corner.
- Glob.Translate: follows `fnmatch` as of Python 3.9 and later. Older versions rejected a reversed range with a regular-expression error.
- Views.NotifiesForPrivateRepos: `notify_for_private_repos` is modelled as an optional boolean. The source tests it by Python truthiness (pr_watcher_notifier/views.py:60), where a string `"false"` opens the gate and `0` keeps it closed; such non-boolean values are not modelled.
- `Views.PullRequestEvent.action` is the raw string, as in the source, rather than a closed variant.
