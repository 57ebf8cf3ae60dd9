/**
  The decision logic of the webhook view module: which watch configuration
  applies to a repository, whether a pull-request event warrants a
  notification (and for which file), and which HTTP status the handler
  answers with.

  The GitHub calls are inputs: the pull request's file names as an
  `Option` (`None` when fetching the pull request raised), and the file
  names of the comparison between the target branch and the previous head
  as a plain sequence (the comparison helper already answers `[]` when its
  fetch fails).  The watch configuration is a sequence of `(key, config)`
  pairs, because the iteration order of the Python mapping decides which
  wildcard key wins.
*/
module Views {
  import opened Wrappers
  import opened Glob

  // ---------------------------------------------------------------------
  // Data model
  // ---------------------------------------------------------------------

  /** The watch configuration of one key: the empty dictionary `{}` (what
      the resolver answers when no key matches), or a rule with its file
      patterns, its recipients and the optional `notify_for_private_repos`
      flag. */
  datatype RepoConfig =
    | Empty
    | Rule(patterns: seq<string>, recipients: string, notifyForPrivateRepos: Option<bool>)

  type WatchConfig = seq<(string, RepoConfig)>

  /** The fields of the webhook payload the decision reads, with the
      configuration the handler resolved for the repository. */
  datatype PullRequestEvent = PullRequestEvent(
    action: string,
    isPrivate: bool,
    watchConfig: RepoConfig,
    wildcardMatch: bool)

  /** A call to the code host made while deciding: the pull request, its
      file listing, and the comparison with the previous head. */
  datatype Fetch = FetchPr | FetchFiles | FetchComparison

  /** The outcome of `should_send_notification`. */
  datatype Decision = Decision(notify: bool, matchedFiles: seq<string>)

  // ---------------------------------------------------------------------
  // Watch-config resolution
  // ---------------------------------------------------------------------

  /** A key is a wildcard key when it contains a slash directly followed by a star;
      every other key, whatever glob characters it holds, counts as exact. */
  predicate IsWildcardKey(key: string) {
    exists k :: 0 <= k < |key| - 1 && key[k] == '/' && key[k + 1] == '*'
  }

  /** The repository satisfies the key as a glob. */
  predicate KeyMatches(repo: string, key: string) {
    Fnmatch(repo, key)
  }

  predicate IsExactMatch(repo: string, key: string) {
    KeyMatches(repo, key) && !IsWildcardKey(key)
  }

  /** The position of the first matching exact key. */
  function FirstExactMatch(wc: WatchConfig, repo: string): (r: Option<nat>)
    ensures r.Some? ==> r.value < |wc| && IsExactMatch(repo, wc[r.value].0)
    ensures r.Some? ==> forall j :: 0 <= j < r.value ==> !IsExactMatch(repo, wc[j].0)
    ensures r.None? ==> forall j :: 0 <= j < |wc| ==> !IsExactMatch(repo, wc[j].0)
  {
    if |wc| == 0 then None
    else if IsExactMatch(repo, wc[0].0) then Some(0)
    else
      match FirstExactMatch(wc[1..], repo)
      case None => None
      case Some(i) => Some(i + 1)
  }

  /** The position of the last matching key. */
  function LastMatch(wc: WatchConfig, repo: string): (r: Option<nat>)
    ensures r.Some? ==> r.value < |wc| && KeyMatches(repo, wc[r.value].0)
    ensures r.Some? ==> forall j :: r.value < j < |wc| ==> !KeyMatches(repo, wc[j].0)
    ensures r.None? ==> forall j :: 0 <= j < |wc| ==> !KeyMatches(repo, wc[j].0)
  {
    if |wc| == 0 then None
    else if KeyMatches(repo, wc[|wc| - 1].0) then Some(|wc| - 1)
    else LastMatch(wc[..|wc| - 1], repo)
  }

  /** What the resolver answers: the first matching exact key, with the
      wildcard flag off; failing that, the last matching key (necessarily a
      wildcard key), with the flag on; failing that, `{}` and off. */
  function Resolution(wc: WatchConfig, repo: string): (RepoConfig, bool) {
    match FirstExactMatch(wc, repo)
    case Some(i) => (wc[i].1, false)
    case None =>
      match LastMatch(wc, repo)
      case Some(j) => (wc[j].1, true)
      case None => (Empty, false)
  }

  /** `get_repo_watch_config`: walk the keys in order, remember every
      match, and stop at the first exact one. */
  method GetRepoWatchConfig(wc: WatchConfig, repo: string) returns (repoConfig: RepoConfig, wildcardMatch: bool)
    ensures (repoConfig, wildcardMatch) == Resolution(wc, repo)
  {
    repoConfig := Empty;
    wildcardMatch := false;
    var i := 0;
    while i < |wc|
      invariant 0 <= i <= |wc|
      invariant forall j :: 0 <= j < i ==> !IsExactMatch(repo, wc[j].0)
      invariant LastMatch(wc[..i], repo).None? ==> repoConfig == Empty && !wildcardMatch
      invariant LastMatch(wc[..i], repo).Some? ==> repoConfig == wc[LastMatch(wc[..i], repo).value].1 && wildcardMatch
    {
      var (key, config) := wc[i];
      if Fnmatch(repo, key) {
        repoConfig := config;
        if !IsWildcardKey(key) {
          wildcardMatch := false;
          break;
        }
        wildcardMatch := true;
      }
      assert wc[..i + 1][..i] == wc[..i];
      i := i + 1;
    }
    assert wc[..|wc|] == wc;
  }

  /** An exact match wins over every wildcard match before it, and the keys
      after it are never looked at. */
  lemma ExactMatchWins(wc: WatchConfig, repo: string, i: nat, rest: WatchConfig)
    requires i < |wc| && IsExactMatch(repo, wc[i].0)
    requires forall j :: 0 <= j < i ==> !IsExactMatch(repo, wc[j].0)
    ensures Resolution(wc, repo) == (wc[i].1, false)
    ensures Resolution(wc[..i + 1] + rest, repo) == (wc[i].1, false)
  {
    var wc' := wc[..i + 1] + rest;
    assert forall j :: 0 <= j <= i ==> wc'[j] == wc[j];
  }

  /** When no exact key matches, the last matching key in mapping order is
      returned with the wildcard flag on; when nothing matches, `{}` and off. */
  lemma OnlyWildcardsLastWins(wc: WatchConfig, repo: string)
    requires forall j :: 0 <= j < |wc| ==> !IsExactMatch(repo, wc[j].0)
    ensures (forall j :: 0 <= j < |wc| ==> !KeyMatches(repo, wc[j].0)) ==> Resolution(wc, repo) == (Empty, false)
    ensures forall j :: 0 <= j < |wc| && KeyMatches(repo, wc[j].0) && (forall k :: j < k < |wc| ==> !KeyMatches(repo, wc[k].0))
               ==> IsWildcardKey(wc[j].0) && Resolution(wc, repo) == (wc[j].1, true)
  {
    forall j | 0 <= j < |wc| && KeyMatches(repo, wc[j].0) && (forall k :: j < k < |wc| ==> !KeyMatches(repo, wc[k].0))
      ensures IsWildcardKey(wc[j].0) && Resolution(wc, repo) == (wc[j].1, true)
    {
      assert !IsExactMatch(repo, wc[j].0);
    }
  }

  /** Whatever the resolver answers comes from a matching key, and the flag
      tells whether that key is a wildcard key; otherwise it is `{}` and off. */
  lemma ResolutionFromMatchingKey(wc: WatchConfig, repo: string)
    ensures var (config, wildcard) := Resolution(wc, repo);
            (config == Empty && !wildcard && forall j :: 0 <= j < |wc| ==> !KeyMatches(repo, wc[j].0))
            || exists j :: 0 <= j < |wc| && KeyMatches(repo, wc[j].0) && config == wc[j].1 && wildcard == IsWildcardKey(wc[j].0)
  {
    var fe := FirstExactMatch(wc, repo);
    if fe.Some? {
      assert KeyMatches(repo, wc[fe.value].0) && !IsWildcardKey(wc[fe.value].0);
    } else {
      var lm := LastMatch(wc, repo);
      if lm.Some? {
        assert !IsExactMatch(repo, wc[lm.value].0);
        assert KeyMatches(repo, wc[lm.value].0) && IsWildcardKey(wc[lm.value].0);
      }
    }
  }

  // ---------------------------------------------------------------------
  // Notify decision
  // ---------------------------------------------------------------------

  /** The actions that are evaluated at all. */
  predicate IsSupported(action: string) {
    action == "opened" || action == "closed" || action == "synchronize" || action == "reopened"
  }

  /** `config.get('notify_for_private_repos', False)` is true. */
  predicate NotifiesForPrivateRepos(config: RepoConfig) {
    config.Rule? && config.notifyForPrivateRepos == Some(true)
  }

  /** The private-repository gate: a private repository reached only
      through a wildcard key is skipped unless the rule opts in. */
  predicate PrivateGateCloses(ev: PullRequestEvent) {
    ev.isPrivate && ev.wildcardMatch && !NotifiesForPrivateRepos(ev.watchConfig)
  }

  predicate AnyPatternMatches(name: string, patterns: seq<string>) {
    exists q :: 0 <= q < |patterns| && Fnmatch(name, patterns[q])
  }

  /** The number of patterns among the first `n` that `name` matches. */
  function Hits(name: string, patterns: seq<string>, n: nat): nat
    requires n <= |patterns|
  {
    |set q | 0 <= q < n && Fnmatch(name, patterns[q])|
  }

  /** `name`, `n` times over. */
  function Repeat(name: string, n: nat): (r: seq<string>)
    ensures |r| == n && forall k :: 0 <= k < n ==> r[k] == name
  {
    seq(n, _ => name)
  }

  /** The position of the first file that matches some pattern. */
  function FirstMatchingFile(files: seq<string>, patterns: seq<string>): (r: Option<nat>)
    ensures r.Some? ==> r.value < |files| && AnyPatternMatches(files[r.value], patterns)
    ensures r.Some? ==> forall k :: 0 <= k < r.value ==> !AnyPatternMatches(files[k], patterns)
    ensures r.None? ==> forall k :: 0 <= k < |files| ==> !AnyPatternMatches(files[k], patterns)
  {
    if |files| == 0 then None
    else if AnyPatternMatches(files[0], patterns) then Some(0)
    else
      match FirstMatchingFile(files[1..], patterns)
      case None => None
      case Some(k) => Some(k + 1)
  }

  /** Whether the files changed before the update already touch a watched
      pattern (the dedup test of a `synchronize` event). */
  predicate AlreadyWatched(comparison: seq<string>, patterns: seq<string>) {
    exists m :: 0 <= m < |comparison| && AnyPatternMatches(comparison[m], patterns)
  }

  /** The decision before the dedup pass: the first file that matches some
      pattern, named once per pattern it matches. */
  function Matched(config: RepoConfig, files: seq<string>): seq<string> {
    if config.Empty? then []
    else
      match FirstMatchingFile(files, config.patterns)
      case None => []
      case Some(k) => Repeat(files[k], Hits(files[k], config.patterns, |config.patterns|))
  }

  /** What `should_send_notification` answers, given what the code host
      returns. */
  function Decide(ev: PullRequestEvent, pr: Option<seq<string>>, comparison: seq<string>): Decision {
    if !IsSupported(ev.action) || pr.None? || PrivateGateCloses(ev) then Decision(false, [])
    else
      var matched := Matched(ev.watchConfig, pr.value);
      var deduped := ev.action == "synchronize" && ev.watchConfig.Rule? && AlreadyWatched(comparison, ev.watchConfig.patterns);
      Decision(|matched| > 0 && !deduped, matched)
  }

  lemma HitsStep(name: string, patterns: seq<string>, n: nat)
    requires n < |patterns|
    ensures Hits(name, patterns, n + 1) == Hits(name, patterns, n) + (if Fnmatch(name, patterns[n]) then 1 else 0)
  {
    var before := set q | 0 <= q < n && Fnmatch(name, patterns[q]);
    var after := set q | 0 <= q < n + 1 && Fnmatch(name, patterns[q]);
    if Fnmatch(name, patterns[n]) {
      assert after == before + {n};
      assert n !in before;
    } else {
      assert after == before;
    }
  }

  /** A name matches some pattern exactly when it matches at least one. */
  lemma {:induction false} HitsPositive(name: string, patterns: seq<string>, n: nat)
    requires n <= |patterns|
    ensures Hits(name, patterns, n) > 0 <==> exists q :: 0 <= q < n && Fnmatch(name, patterns[q])
  {
    if n > 0 {
      HitsStep(name, patterns, n - 1);
      HitsPositive(name, patterns, n - 1);
    }
  }

  /** `should_send_notification`.  `calls` lists the code-host calls made,
      in order. */
  method ShouldSendNotification(ev: PullRequestEvent, pr: Option<seq<string>>, comparison: seq<string>)
    returns (notify: bool, matchingModifiedFiles: seq<string>, calls: seq<Fetch>)
    ensures Decision(notify, matchingModifiedFiles) == Decide(ev, pr, comparison)
    ensures calls == [] <==> !IsSupported(ev.action)
    ensures calls == [] || calls == [FetchPr] || calls == [FetchPr, FetchFiles]
         || calls == [FetchPr, FetchFiles, FetchComparison]
    ensures FetchFiles in calls <==> IsSupported(ev.action) && pr.Some? && !PrivateGateCloses(ev) && ev.watchConfig.Rule?
    ensures FetchComparison in calls <==> ev.action == "synchronize" && |matchingModifiedFiles| > 0
  {
    notify := false;
    matchingModifiedFiles := [];
    calls := [];
    if !IsSupported(ev.action) {
      return;
    }
    calls := [FetchPr];
    if pr.None? {
      return;
    }
    var files := pr.value;
    var matched := false;
    var config := ev.watchConfig;
    if ev.isPrivate && ev.wildcardMatch && !NotifiesForPrivateRepos(config) {
      return false, [], calls;
    }
    if config.Rule? {
      var patterns := config.patterns;
      calls := calls + [FetchFiles];
      var i := 0;
      while i < |files|
        invariant 0 <= i <= |files|
        invariant !matched && matchingModifiedFiles == []
        invariant calls == [FetchPr, FetchFiles]
        invariant forall k :: 0 <= k < i ==> !AnyPatternMatches(files[k], patterns)
      {
        var name := files[i];
        var j := 0;
        while j < |patterns|
          invariant 0 <= j <= |patterns|
          invariant matchingModifiedFiles == Repeat(name, Hits(name, patterns, j))
          invariant matched <==> exists q :: 0 <= q < j && Fnmatch(name, patterns[q])
        {
          HitsStep(name, patterns, j);
          if Fnmatch(name, patterns[j]) {
            matched := true;
            matchingModifiedFiles := matchingModifiedFiles + [name];
          }
          j := j + 1;
        }
        if matched {
          HitsPositive(name, patterns, |patterns|);
          assert FirstMatchingFile(files, patterns) == Some(i);
          break;
        }
        i := i + 1;
      }
      if !matched {
        assert FirstMatchingFile(files, patterns).None?;
      }
    }
    if matched {
      notify := true;
      // Dedup on an update of the source branch: no notification when the
      // changes before the update already touched a watched pattern.
      if ev.action == "synchronize" {
        var patterns := config.patterns;
        calls := calls + [FetchComparison];
        var m := 0;
        while m < |comparison|
          invariant 0 <= m <= |comparison|
          invariant notify <==> forall k :: 0 <= k < m ==> !AnyPatternMatches(comparison[k], patterns)
        {
          var p := 0;
          while p < |patterns|
            invariant 0 <= p <= |patterns|
            invariant notify <==> (forall k :: 0 <= k < m ==> !AnyPatternMatches(comparison[k], patterns))
                                  && forall q :: 0 <= q < p ==> !Fnmatch(comparison[m], patterns[q])
          {
            if Fnmatch(comparison[m], patterns[p]) {
              notify := false;
              break;
            }
            p := p + 1;
          }
          m := m + 1;
        }
      }
    }
  }

  /** Unsupported actions, a failed pull-request fetch and a closed private
      gate each give `(False, [])`, whatever the files are. */
  lemma EarlyExits(ev: PullRequestEvent, pr: Option<seq<string>>, comparison: seq<string>)
    ensures !IsSupported(ev.action) ==> Decide(ev, pr, comparison) == Decision(false, [])
    ensures pr.None? ==> Decide(ev, pr, comparison) == Decision(false, [])
    ensures PrivateGateCloses(ev) ==> Decide(ev, pr, comparison) == Decision(false, [])
  {
  }

  /** An exact match, or an explicit opt-in, bypasses the private gate: the
      decision is then the one for a public repository. */
  lemma GateBypass(ev: PullRequestEvent, pr: Option<seq<string>>, comparison: seq<string>)
    requires !ev.wildcardMatch || NotifiesForPrivateRepos(ev.watchConfig)
    ensures Decide(ev, pr, comparison) == Decide(ev.(isPrivate := false), pr, comparison)
  {
  }

  /** Before the dedup pass: a file matched iff the configuration is a rule
      and some file matches some pattern; the matched list then names the
      first such file once per pattern it matches, and is empty otherwise. */
  lemma MatchedFirstFile(config: RepoConfig, files: seq<string>)
    ensures |Matched(config, files)| > 0
        <==> config.Rule? && exists k :: 0 <= k < |files| && AnyPatternMatches(files[k], config.patterns)
    ensures |Matched(config, files)| > 0 ==>
              exists k :: 0 <= k < |files| && AnyPatternMatches(files[k], config.patterns)
                && (forall e :: 0 <= e < k ==> !AnyPatternMatches(files[e], config.patterns))
                && |Matched(config, files)| == |set q | 0 <= q < |config.patterns| && Fnmatch(files[k], config.patterns[q])|
                && forall m :: 0 <= m < |Matched(config, files)| ==> Matched(config, files)[m] == files[k]
  {
    if config.Rule? {
      var r := FirstMatchingFile(files, config.patterns);
      if r.Some? {
        HitsPositive(files[r.value], config.patterns, |config.patterns|);
      }
    }
  }

  /** The decision of a supported event whose pull request was fetched and
      whose gate is open: notify iff a file matched and, on `synchronize`,
      no file changed before the update matches a pattern.  The matched list
      does not depend on the comparison, and other actions ignore it. */
  lemma DedupOverride(ev: PullRequestEvent, files: seq<string>, comparison: seq<string>, other: seq<string>)
    requires IsSupported(ev.action) && !PrivateGateCloses(ev)
    ensures Decide(ev, Some(files), comparison).matchedFiles == Matched(ev.watchConfig, files)
    ensures ev.action == "synchronize" ==>
              Decide(ev, Some(files), comparison).notify
                == (|Matched(ev.watchConfig, files)| > 0 && !AlreadyWatched(comparison, ev.watchConfig.patterns))
    ensures ev.action != "synchronize" ==>
              Decide(ev, Some(files), comparison) == Decide(ev, Some(files), other)
    ensures Decide(ev, Some(files), comparison).matchedFiles == Decide(ev, Some(files), other).matchedFiles
  {
    MatchedFirstFile(ev.watchConfig, files);
  }

  /** A notification always names at least one file, and it names only
      files of the pull request. */
  lemma NotifyNamesFiles(ev: PullRequestEvent, pr: Option<seq<string>>, comparison: seq<string>)
    ensures Decide(ev, pr, comparison).notify ==> |Decide(ev, pr, comparison).matchedFiles| > 0
    ensures forall m :: 0 <= m < |Decide(ev, pr, comparison).matchedFiles| ==>
              pr.Some? && Decide(ev, pr, comparison).matchedFiles[m] in pr.value
  {
    var d := Decide(ev, pr, comparison);
    if |d.matchedFiles| > 0 {
      var r := FirstMatchingFile(pr.value, ev.watchConfig.patterns);
      assert forall m :: 0 <= m < |d.matchedFiles| ==> d.matchedFiles[m] == pr.value[r.value];
    }
  }

  // ---------------------------------------------------------------------
  // Status-code mapping of the handler
  // ---------------------------------------------------------------------

  /** The fields of the parsed webhook payload the decision reads (the
      pull-request number and the previous head only feed the fetches). */
  datatype Payload = Payload(action: string, repo: string, isPrivate: bool)

  /** Whether some key of the configuration is the repository name itself.
      The mailer looks the rule up again by that name, as a plain mapping
      lookup, and fails when there is no such key. */
  predicate IsKey(wc: WatchConfig, repo: string) {
    exists i :: 0 <= i < |wc| && wc[i].0 == repo
  }

  /** The status the handler answers with, given whether the event header
      is present and what it says, whether the signature is valid, whether
      the body is JSON, the decision, and whether the mailer returned.
      A mailer that raises (its lookup of the repository's own key, or
      anything after it) ends the request as a server error. */
  function StatusCode(eventType: Option<string>, signatureValid: bool, jsonParsed: bool, notify: bool,
                      mailerReturned: bool): (code: int)
    ensures code == 200 || code == 201 || code == 400 || code == 500
    ensures code == 400 <==> eventType.None? || (eventType == Some("pull_request") && (!signatureValid || !jsonParsed))
    ensures code == 201 <==> eventType == Some("pull_request") && signatureValid && jsonParsed && notify && mailerReturned
    ensures code == 500 <==> eventType == Some("pull_request") && signatureValid && jsonParsed && notify && !mailerReturned
  {
    if eventType.None? then 400
    else if eventType.value != "pull_request" then 200
    else if !signatureValid || !jsonParsed then 400
    else if notify then (if mailerReturned then 201 else 500)
    else 200
  }

  /** The decision the handler reaches for a parsed payload: resolve the
      repository's configuration, then decide. */
  function HandlerDecision(body: Payload, wc: WatchConfig, pr: Option<seq<string>>, comparison: seq<string>): Decision {
    var (config, wildcard) := Resolution(wc, body.repo);
    Decide(PullRequestEvent(body.action, body.isPrivate, config, wildcard), pr, comparison)
  }

  /** A repository reached only through a wildcard key has no key of its
      own, so whenever such a repository is to be notified the mailer's
      lookup fails. Repository names hold no glob characters. */
  lemma WildcardMatchHasNoKey(wc: WatchConfig, repo: string)
    requires IsPlain(repo)
    requires Resolution(wc, repo).1
    ensures !IsKey(wc, repo)
  {
    if i :| 0 <= i < |wc| && wc[i].0 == repo {
      FnmatchPlain(repo, repo);
      assert !IsWildcardKey(wc[i].0);
      assert IsExactMatch(repo, wc[i].0);
    }
  }

  /** `handler`: the webhook view.  `mailed` holds the file list of the
      notification sent. `mailerReturns` says whether the mailer, once it
      has found the repository's own key, comes back without raising: the
      entry has its recipients and subject, the subject and the body
      template render, and the mail goes out. */
  method Handler(eventType: Option<string>, signatureValid: bool, body: Option<Payload>, wc: WatchConfig,
                 pr: Option<seq<string>>, comparison: seq<string>, mailerReturns: bool)
    returns (status: int, mailed: Option<seq<string>>)
    ensures status == StatusCode(eventType, signatureValid, body.Some?,
                                 body.Some? && HandlerDecision(body.value, wc, pr, comparison).notify,
                                 body.Some? && IsKey(wc, body.value.repo) && mailerReturns)
    ensures mailed.Some? <==> status == 201
    ensures mailed.Some? ==> body.Some? && mailed.value == HandlerDecision(body.value, wc, pr, comparison).matchedFiles
    ensures mailed.Some? ==> |mailed.value| > 0
  {
    status := 200;
    mailed := None;
    if eventType.None? {
      return 400, None;
    }
    if eventType.value == "pull_request" {
      if !signatureValid {
        return 400, None;
      }
      if body.None? {
        return 400, None;
      }
      var data := body.value;
      var config, wildcardMatch := GetRepoWatchConfig(wc, data.repo);
      var ev := PullRequestEvent(data.action, data.isPrivate, config, wildcardMatch);
      var notify, modifiedFiles, calls := ShouldSendNotification(ev, pr, comparison);
      if notify {
        if !IsKey(wc, data.repo) || !mailerReturns {
          return 500, None;
        }
        mailed := Some(modifiedFiles);
        status := 201;
      }
    }
  }
}
