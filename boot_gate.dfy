/** The boot-permission gate: given the per-lab rules of `labs.ini`, a lab name,
    a tree name and a branch name, decide whether that boot job may run. */
module BootGate {
  import opened Wrappers
  import opened PyStrings

  /** The four verdicts of the gate. */
  datatype Outcome = Allowed | DeniedUnknownLab | DeniedNotWhitelisted | DeniedBlacklisted

  /** One lab's section: the raw `tree_whitelist` and `tree_blacklist` option
      values, `None` when the option is absent. */
  datatype LabRules = LabRules(treeWhitelist: Option<string>, treeBlacklist: Option<string>)

  /** The configured labs, keyed by section name. */
  type Config = map<string, LabRules>

  /** Separates the tree from the branch in a `TREE#BRANCH` whitelist token. */
  const Delimiter: char := '#'

  /** Python truthiness of an option value: present and not the empty string. */
  predicate IsSet(opt: Option<string>)
  {
    opt.Some? && |opt.value| > 0
  }

  /** Whether one whitelist token admits (tree, branch): a `TREE#BRANCH` token
      compares the field before the first `#` with the tree and the field
      between the first and the second `#` with the branch; a bare token
      compares itself with the tree. */
  predicate TokenMatches(token: string, tree: string, branch: string)
  {
    if Delimiter in token then
      var fields := SplitOn(token, Delimiter);
      tree == fields[0] && branch == fields[1]
    else
      tree == token
  }

  /** Some token of the whitelist admits (tree, branch). */
  predicate Whitelisted(tokens: seq<string>, tree: string, branch: string)
  {
    exists k :: 0 <= k < |tokens| && TokenMatches(tokens[k], tree, branch)
  }

  /** The decision cascade: unknown lab, then the whitelist (exclusively, when
      set), then the blacklist, then allow by default. */
  function Decide(cfg: Config, lab: string, tree: string, branch: string): Outcome
  {
    if lab !in cfg then DeniedUnknownLab
    else if IsSet(cfg[lab].treeWhitelist) then
      if Whitelisted(Words(cfg[lab].treeWhitelist.value), tree, branch) then Allowed
      else DeniedNotWhitelisted
    else if IsSet(cfg[lab].treeBlacklist) && tree in Words(cfg[lab].treeBlacklist.value) then
      DeniedBlacklisted
    else Allowed
  }

  /** The process exit status of a verdict: success only for an allowed boot. */
  function ExitCode(o: Outcome): (code: int)
    ensures code == 0 || code == 1
    ensures code == 0 <==> o == Allowed
  {
    if o == Allowed then 0 else 1
  }

  /** The gate as the script runs it: the lookups in order, and a scan over the
      whitelist tokens that stops at the first one that matches. */
  method Evaluate(cfg: Config, lab: string, tree: string, branch: string)
    returns (outcome: Outcome, exitCode: int)
    ensures outcome == Decide(cfg, lab, tree, branch)
    ensures exitCode == ExitCode(outcome)
  {
    if lab !in cfg {
      return DeniedUnknownLab, 1;
    }
    var rules := cfg[lab];

    var whitelist := rules.treeWhitelist;
    if whitelist.Some? && |whitelist.value| > 0 {
      var tokens := Words(whitelist.value);
      var i := 0;
      while i < |tokens|
        invariant 0 <= i <= |tokens|
        invariant forall k :: 0 <= k < i ==> !TokenMatches(tokens[k], tree, branch)
      {
        var token := tokens[i];
        if Delimiter in token {
          var wTree := SplitOn(token, Delimiter)[0];
          var wBranch := SplitOn(token, Delimiter)[1];
          if tree == wTree && branch == wBranch {
            return Allowed, 0;
          }
        } else {
          if tree == token {
            return Allowed, 0;
          }
        }
        i := i + 1;
      }
      return DeniedNotWhitelisted, 1;
    }

    var blacklist := rules.treeBlacklist;
    if blacklist.Some? && |blacklist.value| > 0 && tree in Words(blacklist.value) {
      return DeniedBlacklisted, 1;
    }
    return Allowed, 0;
  }
}
