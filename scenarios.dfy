/**
  Concrete scenarios from the project's test suite, stated about the model:
  glob sanity checks, watch-config resolution, the notify decision and the
  handler's status codes.
*/
module ViewsScenarios {
  import opened Wrappers
  import opened Glob
  import opened Views

  /** `REPO_CONFIG1` of the view tests. */
  const DocsRule: RepoConfig := Rule(["documents/*"], "nobody@example.com", None)

  /** The watch configuration of the test settings, in its mapping order.
      Its entries carry no `subject`, so a mailer given them raises after
      its lookup; that outcome is the `mailerReturns` input of the handler. */
  const TestWatchConfig: WatchConfig := [
    ("a/b", DocsRule),
    ("b/*", DocsRule),
    ("c/d", Rule(["documents/*"], "nobody@example.com", Some(true)))
  ]

  const PrFiles: seq<string> := ["documents/file1.rst", "elsewhere/file2.py"]

  lemma DocumentsPattern()
    ensures Fnmatch("documents/file1.rst", "documents/*")
    ensures !Fnmatch("elsewhere/file2.py", "documents/*")
    ensures !Fnmatch("code/module.py", "documents/*")
    ensures !Fnmatch("a", "documents/*") && !Fnmatch("b", "documents/*")
  {
    assert IsPlain("documents/");
    assert "documents/" + "*" == "documents/*";
    FnmatchPrefixStar("documents/file1.rst", "documents/");
    FnmatchPrefixStar("elsewhere/file2.py", "documents/");
    FnmatchPrefixStar("code/module.py", "documents/");
    FnmatchPrefixStar("a", "documents/");
    FnmatchPrefixStar("b", "documents/");
  }

  lemma OrgStar()
    ensures Fnmatch("a/abcd", "a/*")
  {
    assert IsPlain("a/");
    assert "a/" + "*" == "a/*";
    FnmatchPrefixStar("a/abcd", "a/");
  }

  /** An exact key matches only its own name. */
  lemma ExactKeys()
    ensures Fnmatch("a/abcd", "a/abcd") && Fnmatch("a/b", "a/b")
    ensures !Fnmatch("a/abcd", "a/b") && !Fnmatch("b/c", "a/b") && !Fnmatch("A/B", "a/b")
  {
    assert IsPlain("a/abcd") && IsPlain("a/b");
    FnmatchPlain("a/abcd", "a/abcd");
    FnmatchPlain("a/b", "a/b");
    FnmatchPlain("a/abcd", "a/b");
    FnmatchPlain("b/c", "a/b");
    FnmatchPlain("A/B", "a/b");
  }

  /** The key pattern with `bc` between two stars, after the `a` org prefix, matches `a/abcd`. */
  lemma OrgInfixMatches()
    ensures Fnmatch("a/abcd", "a/*bc*")
  {
    assert IsPlain("a/");
    assert "a/*bc*" == "a/" + "*bc*";
    TranslatePlainPrefix("a/", "*bc*");
    LiteralsThenMatch("a/", Translate("*bc*"), "a/abcd");
    assert "a/abcd"[..2] == "a/" && "a/abcd"[2..] == "abcd";
    InfixTailMatches();
  }

  /** The tail `*bc*` of that key matches `abcd`, starting the `bc` after one character. */
  lemma InfixTailMatches()
    ensures Fnmatch("abcd", "*bc*")
  {
    assert Translate("*bc*") == [AnyRun] + Translate("bc*");
    AnyRunSplits(Translate("bc*"), "abcd");
    assert "bc" + "*" == "bc*";
    FnmatchPrefixStar("abcd"[1..], "bc");
    assert "abcd"[1..][..2] == "bc";
  }

  /** The same shape with `qq` fails: no suffix of `abcd` starts with `qq`. */
  lemma OrgInfixMisses()
    ensures !Fnmatch("a/abcd", "a/*qq*")
  {
    assert IsPlain("a/") && IsPlain("qq");
    assert "a/*qq*" == "a/" + "*qq*";
    TranslatePlainPrefix("a/", "*qq*");
    assert Translate("*qq*") == [AnyRun] + Translate("qq*");
    LiteralsThenMatch("a/", Translate("*qq*"), "a/abcd");
    assert "a/abcd"[2..] == "abcd";
    AnyRunSplits(Translate("qq*"), "abcd");
    assert "qq" + "*" == "qq*";
    forall k | 0 <= k <= 4 ensures !Fnmatch("abcd"[k..], "qq*") {
      FnmatchPrefixStar("abcd"[k..], "qq");
    }
  }

  const CH: seq<ClassItem> := [Single('c'), Single('h')]

  lemma ParseCh()
    ensures ParseItems("ch") == CH
  {
    assert "ch"[1..] == "h" && "h"[1..] == "";
  }

  lemma TranslateCh(negated: bool)
    ensures Translate("x." + (if negated then "[!ch]" else "[ch]")) == Translate("x.") + [Class(negated, CH)]
  {
    ParseCh();
    TranslateClass(negated, "ch", "");
    assert "[" + (if negated then "!" else "") + "ch" + "]" + "" == (if negated then "[!ch]" else "[ch]");
    assert Translate("") == [];
    assert IsPlain("x.");
    TranslatePlainPrefix("x.", if negated then "[!ch]" else "[ch]");
  }

  /** One character after `x.`, against a one-token class. */
  lemma ClassAfterPrefix(t: Token, c: char)
    requires t.Class?
    ensures TokensMatch(Translate("x.") + [t], "x." + [c]) <==> TokenAccepts(t, c)
  {
    assert IsPlain("x.");
    LiteralsThenMatch("x.", [t], "x." + [c]);
    assert ("x." + [c])[..2] == "x." && ("x." + [c])[2..] == [c];
    assert [t][1..] == [] && [c][1..] == [];
  }

  /** `x.[ch]` and `x.[!ch]`: one character in, or not in, the class. */
  lemma BracketClass()
    ensures Fnmatch("x.c", "x.[ch]") && !Fnmatch("x.o", "x.[ch]")
    ensures Fnmatch("x.o", "x.[!ch]") && !Fnmatch("x.c", "x.[!ch]")
  {
    TranslateCh(false);
    TranslateCh(true);
    assert "x." + "[ch]" == "x.[ch]" && "x." + "[!ch]" == "x.[!ch]";
    assert "x.c" == "x." + ['c'] && "x.o" == "x." + ['o'];
    ClassAfterPrefix(Class(false, CH), 'c');
    ClassAfterPrefix(Class(false, CH), 'o');
    ClassAfterPrefix(Class(true, CH), 'c');
    ClassAfterPrefix(Class(true, CH), 'o');
    assert ItemContains(CH[0], 'c');
  }

  /** A range matches the characters between its ends. */
  lemma RangeMatches()
    ensures Fnmatch("5", "[0-9]")
  {
    assert "0-9"[3..] == [];
    assert ParseItems("0-9") == [Range('0', '9')];
    TranslateClass(false, "0-9", "");
    assert "[" + "" + "0-9" + "]" + "" == "[0-9]";
    assert Translate("") == [];
    assert ItemContains([Range('0', '9')][0], '5');
    assert "5"[1..] == [];
  }

  /** A reversed range matches nothing. */
  lemma ReversedRangeMisses()
    ensures !Fnmatch("5", "[9-0]")
  {
    assert "9-0"[3..] == [];
    assert ParseItems("9-0") == [Range('9', '0')];
    TranslateClass(false, "9-0", "");
    assert "[" + "" + "9-0" + "]" + "" == "[9-0]";
    assert Translate("") == [];
  }

  lemma WildcardKeys()
    ensures IsWildcardKey("a/*") && IsWildcardKey("b/*")
    ensures !IsWildcardKey("a/b") && !IsWildcardKey("c/d") && !IsWildcardKey("a/abcd")
    ensures !IsWildcardKey("a/b?") && !IsWildcardKey("*")
  {
    assert "a/*"[1] == '/' && "a/*"[2] == '*';
    assert "b/*"[1] == '/' && "b/*"[2] == '*';
  }

  /** A lone org wildcard key is found, with the flag on. */
  lemma ResolveOrgWildcard()
    ensures Resolution([("a/*", DocsRule)], "a/abcd") == (DocsRule, true)
  {
    OrgStar();
    WildcardKeys();
  }

  /** An exact key beats an earlier org wildcard key. */
  lemma ResolveExactOverWildcard()
    ensures Resolution([("a/*", Rule(["documents/*"], "nobody@example.com", None)),
                        ("a/abcd", Rule(["documents/*"], "specific@example.com", None))], "a/abcd")
         == (Rule(["documents/*"], "specific@example.com", None), false)
  {
    OrgStar();
    ExactKeys();
    WildcardKeys();
  }

  /** The keys of the test settings: `a/b` and `c/d` exactly, `b/c` through
      the `b` org wildcard, and nothing for an unknown repository. */
  lemma ResolveTestSettings()
    ensures Resolution(TestWatchConfig, "a/b") == (DocsRule, false)
    ensures Resolution(TestWatchConfig, "b/c") == (DocsRule, true)
    ensures Resolution(TestWatchConfig, "c/d") == (TestWatchConfig[2].1, false)
    ensures Resolution(TestWatchConfig, "x/y") == (Empty, false)
  {
    ResolveTestA();
    ResolveTestB();
    ResolveTestC();
    ResolveTestUnknown();
  }

  lemma ResolveTestA()
    ensures Resolution(TestWatchConfig, "a/b") == (DocsRule, false)
  {
    assert IsPlain("a/b");
    FnmatchPlain("a/b", "a/b");
  }

  lemma ResolveTestB()
    ensures Resolution(TestWatchConfig, "b/c") == (DocsRule, true)
  {
    WildcardKeys();
    assert IsPlain("a/b") && IsPlain("c/d") && IsPlain("b/");
    FnmatchPlain("b/c", "a/b");
    FnmatchPlain("b/c", "c/d");
    assert "b/" + "*" == "b/*";
    FnmatchPrefixStar("b/c", "b/");
    assert TestWatchConfig[..2] == [("a/b", DocsRule), ("b/*", DocsRule)];
    assert TestWatchConfig[..2][..1] == [("a/b", DocsRule)];
    assert !IsExactMatch("b/c", TestWatchConfig[0].0) && !IsExactMatch("b/c", TestWatchConfig[1].0)
        && !IsExactMatch("b/c", TestWatchConfig[2].0);
  }

  lemma ResolveTestC()
    ensures Resolution(TestWatchConfig, "c/d") == (TestWatchConfig[2].1, false)
  {
    assert IsPlain("a/b") && IsPlain("c/d");
    FnmatchPlain("c/d", "a/b");
    FnmatchPlain("c/d", "c/d");
  }

  lemma ResolveTestUnknown()
    ensures Resolution(TestWatchConfig, "x/y") == (Empty, false)
  {
    WildcardKeys();
    assert IsPlain("a/b") && IsPlain("c/d") && IsPlain("b/");
    FnmatchPlain("x/y", "a/b");
    FnmatchPlain("x/y", "c/d");
    assert "b/" + "*" == "b/*";
    FnmatchPrefixStar("x/y", "b/");
    assert TestWatchConfig[..2] == [("a/b", DocsRule), ("b/*", DocsRule)];
    assert TestWatchConfig[..2][..1] == [("a/b", DocsRule)];
  }

  /** Of the two files, only the first one matches the documents pattern, and once. */
  lemma DocsMatched()
    ensures Matched(DocsRule, PrFiles) == ["documents/file1.rst"]
    ensures Matched(DocsRule, ["code/module.py"]) == []
  {
    DocumentsPattern();
    var ps := DocsRule.patterns;
    assert AnyPatternMatches(PrFiles[0], ps) by { assert Fnmatch(PrFiles[0], ps[0]); }
    assert FirstMatchingFile(PrFiles, ps) == Some(0);
    assert (set q | 0 <= q < 1 && Fnmatch(PrFiles[0], ps[q])) == {0};
    assert !AnyPatternMatches("code/module.py", ps);
  }

  /** The comparison `a`, `b` touches no watched file; the current files do. */
  lemma Comparisons()
    ensures !AlreadyWatched(["a", "b"], DocsRule.patterns)
    ensures AlreadyWatched(PrFiles, DocsRule.patterns)
  {
    DocumentsPattern();
    assert AnyPatternMatches(PrFiles[0], DocsRule.patterns) by { assert Fnmatch(PrFiles[0], DocsRule.patterns[0]); }
  }

  /** An opened pull request touching `documents/` notifies, naming the
      matching file; one touching only code does not. */
  lemma OpenedScenarios()
    ensures Decide(PullRequestEvent("opened", false, DocsRule, false), Some(PrFiles), [])
         == Decision(true, ["documents/file1.rst"])
    ensures Decide(PullRequestEvent("opened", false, DocsRule, false), Some(["code/module.py"]), [])
         == Decision(false, [])
  {
    DocsMatched();
  }

  /** An update whose earlier changes already touched `documents/` is
      silenced, with the matched list kept; one whose earlier changes did
      not is notified. */
  lemma SynchronizeScenarios()
    ensures Decide(PullRequestEvent("synchronize", false, DocsRule, false), Some(PrFiles), PrFiles)
         == Decision(false, ["documents/file1.rst"])
    ensures Decide(PullRequestEvent("synchronize", false, DocsRule, false), Some(PrFiles), ["a", "b"])
         == Decision(true, ["documents/file1.rst"])
  {
    DocsMatched();
    Comparisons();
  }

  /** Private repositories: silenced through a wildcard key, notified
      through an exact key or an explicit opt-in. */
  lemma PrivateScenarios()
    ensures Decide(PullRequestEvent("synchronize", true, DocsRule, true), Some(PrFiles), ["a", "b"])
         == Decision(false, [])
    ensures Decide(PullRequestEvent("synchronize", true, DocsRule, false), Some(PrFiles), ["a", "b"]).notify
    ensures Decide(PullRequestEvent("synchronize", true, DocsRule.(notifyForPrivateRepos := Some(true)), true),
                   Some(PrFiles), ["a", "b"]).notify
  {
    DocsMatched();
    Comparisons();
    assert Matched(DocsRule.(notifyForPrivateRepos := Some(true)), PrFiles) == Matched(DocsRule, PrFiles);
  }

  /** The handler's answers in the view tests. */
  lemma HandlerScenarios()
    ensures StatusCode(None, false, false, false, false) == 400
    ensures StatusCode(Some("blah"), false, false, false, false) == 200
    ensures StatusCode(Some("pull_request"), false, true, true, true) == 400
    ensures StatusCode(Some("pull_request"), true, false, false, false) == 400
    ensures HandlerDecision(Payload("opened", "a/b", false), TestWatchConfig, Some(PrFiles), []).notify
    ensures !HandlerDecision(Payload("edited", "a/b", false), TestWatchConfig, Some(PrFiles), []).notify
    ensures !HandlerDecision(Payload("opened", "a/b", false), TestWatchConfig, None, []).notify
    ensures !HandlerDecision(Payload("synchronize", "a/b", false), TestWatchConfig, Some(PrFiles), PrFiles).notify
  {
    HandlerOpened();
    HandlerIgnored();
    HandlerUpdateSilenced();
  }

  /** An opened pull request on `a/b` touching `documents/` is to be notified. */
  lemma HandlerOpened()
    ensures HandlerDecision(Payload("opened", "a/b", false), TestWatchConfig, Some(PrFiles), []).notify
  {
    ResolveTestA();
    OpenedScenarios();
  }

  /** An ignored action, or a failed fetch of the pull request, is not notified. */
  lemma HandlerIgnored()
    ensures !HandlerDecision(Payload("edited", "a/b", false), TestWatchConfig, Some(PrFiles), []).notify
    ensures !HandlerDecision(Payload("opened", "a/b", false), TestWatchConfig, None, []).notify
  {
    ResolveTestA();
  }

  /** An update whose earlier changes already touched `documents/` is not notified. */
  lemma HandlerUpdateSilenced()
    ensures !HandlerDecision(Payload("synchronize", "a/b", false), TestWatchConfig, Some(PrFiles), PrFiles).notify
  {
    ResolveTestA();
    SynchronizeScenarios();
  }

  /** In the test settings, an opened pull request on `b/c` that touches
      `documents/` is to be notified through the org wildcard key of `b`, but `b/c` is no
      key of its own, so the mailer's lookup fails and the request ends as
      a server error. */
  lemma WildcardRepoServerError(mailerReturns: bool)
    ensures HandlerDecision(Payload("opened", "b/c", false), TestWatchConfig, Some(PrFiles), []).notify
    ensures !IsKey(TestWatchConfig, "b/c")
    ensures StatusCode(Some("pull_request"), true, true, true, IsKey(TestWatchConfig, "b/c") && mailerReturns) == 500
  {
    ResolveTestB();
    DocsMatched();
    assert IsPlain("b/c");
    WildcardMatchHasNoKey(TestWatchConfig, "b/c");
  }

  /** An opened pull request on `a/b` touching `documents/` is to be
      notified and `a/b` is a key of its own, so the answer is 201 exactly
      when the mailer comes back, and 500 when it raises (as it does for an
      entry without a `subject`). */
  lemma ExactRepoMailerOutcome(mailerReturns: bool)
    ensures HandlerDecision(Payload("opened", "a/b", false), TestWatchConfig, Some(PrFiles), []).notify
    ensures IsKey(TestWatchConfig, "a/b")
    ensures StatusCode(Some("pull_request"), true, true, true, IsKey(TestWatchConfig, "a/b") && mailerReturns)
         == (if mailerReturns then 201 else 500)
  {
    ResolveTestA();
    DocsMatched();
    assert TestWatchConfig[0].0 == "a/b";
  }
}
