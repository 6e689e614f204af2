/** What the boot gate promises, stated over its specification `Decide`. */
module BootGateProperties {
  import opened Wrappers
  import opened PyStrings
  import opened BootGate

  // ---------------------------------------------------------------------------
  // Step 1: the lab lookup

  /** A lab without a section is refused with exit status 1, whatever the tree
      and the branch. */
  lemma UnknownLabDenied(cfg: Config, lab: string, tree: string, branch: string)
    requires lab !in cfg
    ensures Decide(cfg, lab, tree, branch) == DeniedUnknownLab
    ensures ExitCode(Decide(cfg, lab, tree, branch)) == 1
  {
  }

  /** The unknown-lab verdict comes from the lookup and from nothing else. */
  lemma UnknownLabOnlyFromLookup(cfg: Config, lab: string, tree: string, branch: string)
    ensures Decide(cfg, lab, tree, branch) == DeniedUnknownLab <==> lab !in cfg
  {
  }

  // ---------------------------------------------------------------------------
  // Step 2: the whitelist, used exclusively when set

  /** With a non-empty whitelist the verdict is ALLOWED exactly when some token
      matches and DENIED_NOT_WHITELISTED otherwise. */
  lemma WhitelistDecides(cfg: Config, lab: string, tree: string, branch: string)
    requires lab in cfg && IsSet(cfg[lab].treeWhitelist)
    ensures var tokens := Words(cfg[lab].treeWhitelist.value);
      Decide(cfg, lab, tree, branch) == Allowed <==>
        exists k :: 0 <= k < |tokens| && TokenMatches(tokens[k], tree, branch)
    ensures Decide(cfg, lab, tree, branch) in {Allowed, DeniedNotWhitelisted}
  {
    var tokens := Words(cfg[lab].treeWhitelist.value);
    assert Decide(cfg, lab, tree, branch) == Allowed <==> Whitelisted(tokens, tree, branch);
  }

  /** The blacklist is never consulted while a whitelist is set: swapping it for
      any other blacklist, or removing it, leaves the verdict unchanged. */
  lemma BlacklistIgnoredUnderWhitelist(cfg: Config, lab: string, tree: string, branch: string,
                                       otherBlacklist: Option<string>)
    requires lab in cfg && IsSet(cfg[lab].treeWhitelist)
    ensures var cfg' := cfg[lab := LabRules(cfg[lab].treeWhitelist, otherBlacklist)];
      Decide(cfg', lab, tree, branch) == Decide(cfg, lab, tree, branch)
  {
  }

  /** A tree named by a bare whitelist token boots even when the blacklist
      names it too. */
  lemma WhitelistedBlacklistedTreeAllowed(cfg: Config, lab: string, whitelist: seq<string>,
                                          blacklist: seq<string>, tree: string, branch: string)
    requires forall k :: 0 <= k < |whitelist| ==> IsWord(whitelist[k])
    requires forall k :: 0 <= k < |blacklist| ==> IsWord(blacklist[k])
    requires Delimiter !in tree && tree in whitelist && tree in blacklist
    ensures var cfg' := cfg[lab := LabRules(Some(Join(whitelist, " ")), Some(Join(blacklist, " ")))];
      Decide(cfg', lab, tree, branch) == Allowed
  {
    var cfg' := cfg[lab := LabRules(Some(Join(whitelist, " ")), Some(Join(blacklist, " ")))];
    JoinEmpty(whitelist);
    WordsOfJoin(whitelist);
    var k :| 0 <= k < |whitelist| && whitelist[k] == tree;
    assert TokenMatches(whitelist[k], tree, branch);
  }

  /** A tree absent from every whitelist token is refused even when no
      blacklist names it. */
  lemma UnlistedTreeDeniedUnderWhitelist(cfg: Config, lab: string, tree: string, branch: string)
    requires lab in cfg && IsSet(cfg[lab].treeWhitelist)
    requires forall t :: t in Words(cfg[lab].treeWhitelist.value) ==> !TokenMatches(t, tree, branch)
    ensures Decide(cfg, lab, tree, branch) == DeniedNotWhitelisted
  {
  }

  /** A whitelist made of whitespace only is set, so it is used, and since it
      holds no token it refuses every tree. */
  lemma BlankWhitelistDeniesAll(cfg: Config, lab: string, tree: string, branch: string)
    requires lab in cfg && IsSet(cfg[lab].treeWhitelist)
    requires AllSpace(cfg[lab].treeWhitelist.value)
    ensures Decide(cfg, lab, tree, branch) == DeniedNotWhitelisted
  {
    WordsEmpty(cfg[lab].treeWhitelist.value);
  }

  /** The scan stops at the first match, but its verdict depends only on which
      tokens are present, not on their order or repetition. */
  lemma WhitelistOrderIrrelevant(tokens: seq<string>, reordered: seq<string>, tree: string, branch: string)
    requires forall t :: t in tokens <==> t in reordered
    ensures Whitelisted(tokens, tree, branch) == Whitelisted(reordered, tree, branch)
  {
    if Whitelisted(tokens, tree, branch) {
      var k :| 0 <= k < |tokens| && TokenMatches(tokens[k], tree, branch);
      assert tokens[k] in reordered;
      var j :| 0 <= j < |reordered| && reordered[j] == tokens[k];
    }
    if Whitelisted(reordered, tree, branch) {
      var k :| 0 <= k < |reordered| && TokenMatches(reordered[k], tree, branch);
      assert reordered[k] in tokens;
      var j :| 0 <= j < |tokens| && tokens[j] == reordered[k];
    }
  }

  /** Two whitelist values that are both set or both unset, and whose tokens
      are the same up to order and repetition, whatever whitespace separates
      them, give the same verdict for every request. */
  lemma WhitelistValueOrderIrrelevant(cfg: Config, lab: string, value: string, reordered: string,
                                      blacklist: Option<string>, tree: string, branch: string)
    requires (|value| > 0) == (|reordered| > 0)
    requires forall t :: t in Words(value) <==> t in Words(reordered)
    ensures Decide(cfg[lab := LabRules(Some(value), blacklist)], lab, tree, branch)
         == Decide(cfg[lab := LabRules(Some(reordered), blacklist)], lab, tree, branch)
  {
    WhitelistOrderIrrelevant(Words(value), Words(reordered), tree, branch);
  }

  // ---------------------------------------------------------------------------
  // Whitelist tokens

  /** A bare token matches on the tree name alone; the branch plays no part. */
  lemma BareTokenIgnoresBranch(token: string, tree: string, branch: string, otherBranch: string)
    requires Delimiter !in token
    ensures TokenMatches(token, tree, branch) <==> tree == token
    ensures TokenMatches(token, tree, branch) == TokenMatches(token, tree, otherBranch)
  {
  }

  /** `TREE#BRANCH` admits exactly that tree on exactly that branch. */
  lemma QualifiedTokenMatches(wTree: string, wBranch: string, tree: string, branch: string)
    requires Delimiter !in wTree && Delimiter !in wBranch
    ensures TokenMatches(wTree + [Delimiter] + wBranch, tree, branch) <==> tree == wTree && branch == wBranch
  {
    SplitOnFirst(wTree, Delimiter, wBranch);
    SplitOnNoSep(wBranch, Delimiter);
    assert Delimiter in wTree + [Delimiter] + wBranch by {
      assert (wTree + [Delimiter] + wBranch)[|wTree|] == Delimiter;
    }
  }

  /** Text after a second `#` is ignored: `a#b#c` admits tree `a` on branch `b`
      and nothing else. */
  lemma ExtraFieldsIgnored(wTree: string, wBranch: string, rest: string, tree: string, branch: string)
    requires Delimiter !in wTree && Delimiter !in wBranch
    ensures TokenMatches(wTree + [Delimiter] + wBranch + [Delimiter] + rest, tree, branch)
        <==> tree == wTree && branch == wBranch
  {
    var token := wTree + [Delimiter] + wBranch + [Delimiter] + rest;
    assert token == wTree + [Delimiter] + (wBranch + [Delimiter] + rest);
    SplitOnFirst(wTree, Delimiter, wBranch + [Delimiter] + rest);
    SplitOnFirst(wBranch, Delimiter, rest);
    assert token[|wTree|] == Delimiter;
  }

  /** `a#` admits tree `a` only on the empty branch. */
  lemma TrailingDelimiterNeedsEmptyBranch(wTree: string, tree: string, branch: string)
    requires Delimiter !in wTree
    ensures TokenMatches(wTree + [Delimiter], tree, branch) <==> tree == wTree && branch == ""
  {
    QualifiedTokenMatches(wTree, "", tree, branch);
    assert wTree + [Delimiter] + "" == wTree + [Delimiter];
  }

  /** No token matches a tree whose name contains `#`. */
  lemma DelimiterInTreeNeverMatches(token: string, tree: string, branch: string)
    requires Delimiter in tree
    ensures !TokenMatches(token, tree, branch)
  {
  }

  /** Hence a tree whose name contains `#` is never whitelisted. */
  lemma DelimiterInTreeNeverWhitelisted(cfg: Config, lab: string, tree: string, branch: string)
    requires lab in cfg && IsSet(cfg[lab].treeWhitelist)
    requires Delimiter in tree
    ensures Decide(cfg, lab, tree, branch) == DeniedNotWhitelisted
  {
    forall t | t in Words(cfg[lab].treeWhitelist.value) ensures !TokenMatches(t, tree, branch) {
      DelimiterInTreeNeverMatches(t, tree, branch);
    }
  }

  // ---------------------------------------------------------------------------
  // Steps 3 and 4: the blacklist, then allow by default

  /** Without a whitelist, the tree is refused exactly when it is one of the
      blacklist's whitespace-separated tokens, and allowed otherwise. */
  lemma BlacklistDecides(cfg: Config, lab: string, tree: string, branch: string)
    requires lab in cfg && !IsSet(cfg[lab].treeWhitelist)
    ensures Decide(cfg, lab, tree, branch) == DeniedBlacklisted <==>
      IsSet(cfg[lab].treeBlacklist) && tree in Words(cfg[lab].treeBlacklist.value)
    ensures Decide(cfg, lab, tree, branch) in {Allowed, DeniedBlacklisted}
  {
  }

  /** A blacklist given as tokens refuses exactly the trees it names. */
  lemma BlacklistTokens(cfg: Config, lab: string, blacklist: seq<string>, tree: string, branch: string)
    requires forall k :: 0 <= k < |blacklist| ==> IsWord(blacklist[k])
    ensures var cfg' := cfg[lab := LabRules(None, Some(Join(blacklist, " ")))];
      Decide(cfg', lab, tree, branch) == (if tree in blacklist then DeniedBlacklisted else Allowed)
  {
    JoinEmpty(blacklist);
    WordsOfJoin(blacklist);
  }

  /** A lab with neither list set allows every tree on every branch. */
  lemma NoRulesAllowAll(cfg: Config, lab: string, tree: string, branch: string)
    requires lab in cfg && !IsSet(cfg[lab].treeWhitelist) && !IsSet(cfg[lab].treeBlacklist)
    ensures Decide(cfg, lab, tree, branch) == Allowed
  {
  }

  // ---------------------------------------------------------------------------
  // Worked examples

  /** `"foo bar#dev".split()` is `["foo", "bar#dev"]`. */
  lemma ExampleWhitelistTokens()
    ensures Words("foo bar#dev") == ["foo", "bar#dev"]
  {
    assert IsWord("foo") && IsWord("bar#dev");
    assert Join(["foo", "bar#dev"], " ") == "foo bar#dev";
    WordsOfJoin(["foo", "bar#dev"]);
  }

  lemma WhitelistedPair(first: string, second: string, tree: string, branch: string)
    ensures Whitelisted([first, second], tree, branch) <==>
      TokenMatches(first, tree, branch) || TokenMatches(second, tree, branch)
  {
    var tokens := [first, second];
    assert tokens[0] == first && tokens[1] == second;
  }

  /** The token `bar#dev` admits `bar` on `dev` only. */
  lemma ExampleQualifiedToken(tree: string, branch: string)
    ensures TokenMatches("bar#dev", tree, branch) <==> tree == "bar" && branch == "dev"
  {
    assert "bar" + [Delimiter] + "dev" == "bar#dev";
    QualifiedTokenMatches("bar", "dev", tree, branch);
  }

  /** The tokens of `foo bar#dev` admit `foo` on any branch and `bar` on `dev`. */
  lemma ExampleWhitelisted(tree: string, branch: string)
    ensures Whitelisted(["foo", "bar#dev"], tree, branch) <==> tree == "foo" || (tree == "bar" && branch == "dev")
  {
    ExampleQualifiedToken(tree, branch);
    BareTokenIgnoresBranch("foo", tree, branch, branch);
    WhitelistedPair("foo", "bar#dev", tree, branch);
  }

  /** Whitelist `foo bar#dev`: `foo` boots on any branch, `bar` only on `dev`,
      anything else is refused. */
  lemma WhitelistExample(tree: string, branch: string)
    ensures var cfg := map["lab" := LabRules(Some("foo bar#dev"), None)];
      Decide(cfg, "lab", tree, branch) ==
        if tree == "foo" || (tree == "bar" && branch == "dev") then Allowed else DeniedNotWhitelisted
  {
    var cfg := map["lab" := LabRules(Some("foo bar#dev"), None)];
    ExampleWhitelistTokens();
    ExampleWhitelisted(tree, branch);
    assert "lab" in cfg && IsSet(cfg["lab"].treeWhitelist);
    assert Decide(cfg, "lab", tree, branch) ==
      if Whitelisted(Words("foo bar#dev"), tree, branch) then Allowed else DeniedNotWhitelisted;
  }

  /** `"foo bar".split()` is `["foo", "bar"]`. */
  lemma ExampleBlacklistTokens()
    ensures Words("foo bar") == ["foo", "bar"]
  {
    assert IsWord("foo") && IsWord("bar");
    assert Join(["foo", "bar"], " ") == "foo bar";
    WordsOfJoin(["foo", "bar"]);
  }

  /** Blacklist `foo bar` and no whitelist: `foo` and `bar` are refused, every
      other tree boots. */
  lemma BlacklistExample(tree: string, branch: string)
    ensures var cfg := map["lab" := LabRules(None, Some("foo bar"))];
      Decide(cfg, "lab", tree, branch) ==
        if tree == "foo" || tree == "bar" then DeniedBlacklisted else Allowed
  {
    var cfg := map["lab" := LabRules(None, Some("foo bar"))];
    ExampleBlacklistTokens();
    assert "lab" in cfg && !IsSet(cfg["lab"].treeWhitelist) && IsSet(cfg["lab"].treeBlacklist);
    BlacklistDecides(cfg, "lab", tree, branch);
  }
}
