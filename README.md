# Boot-permission gate of `should-I-boot-this.py`

The script decides whether a lab may run a boot job for a given kernel tree
and branch. Each lab has a section in `labs.ini` with two optional options,
`tree_whitelist` and `tree_blacklist`, both whitespace-separated token
lists. The rules are applied in a fixed order and the first that applies
decides the verdict:

1. a lab without a section is refused (`DeniedUnknownLab`);
2. a set (non-empty) whitelist is used exclusively: the tree boots when some
   token matches (`Allowed`), and is refused otherwise
   (`DeniedNotWhitelisted`). A bare token `TREE` matches the tree name. A
   token `TREE#BRANCH` matches when the field before the first `#` is the
   tree and the field between the first and second `#` is the branch;
3. otherwise a tree named by a blacklist token is refused (`DeniedBlacklisted`);
4. otherwise the tree boots (`Allowed`).

The exit status is 0 for `Allowed` and 1 for every denial.

The project has four modules:

- `Wrappers` (`wrappers.dfy`) defines `Option`, used for an option that may be absent.
- `PyStrings` (`pystrings.dfy`) models Python's `str.split()` as `Words` and
  `str.split(sep)` as `SplitOn`. It proves each against its inverse `Join`
  and states which characters each keeps.
- `BootGate` (`boot_gate.dfy`) holds the data model (`Outcome`, `LabRules`,
  `Config`), the specification function `Decide`, the exit-status mapping
  `ExitCode`, and `Evaluate`. `Evaluate` is the script's cascade, including
  the first-match loop over the whitelist tokens. It is proved equal to `Decide`.
- `BootGateProperties` (`boot_gate_properties.dfy`) proves what the gate
  promises as lemmas over `Decide`.

The environment variables `LAB`, `TREE` and `BRANCH` become the parameters
`lab`, `tree` and `branch`. The parsed `labs.ini` becomes a
`map<string, LabRules>` keyed by section name.

Assumption: `IsSpace` is the set of characters for which Python 3's
`str.isspace()` holds: U+0009 to U+000D, U+001C to U+001F, U+0020, U+0085,
U+00A0, U+1680, U+2000 to U+200A, U+2028, U+2029, U+202F, U+205F and U+3000.
`str.split()` splits on exactly these. The set is fixed in the model.

Three points of the script's behaviour are worth stating on their own:

- A `TREE#BRANCH` token is read through `split('#')[0]` and `split('#')[1]`
  only, so text after a second `#` is ignored (`ExtraFieldsIgnored`).
- The script does not check that `LAB`, `TREE` or `BRANCH` is non-empty, so
  the model accepts any strings, including empty ones.
- The whitelist test is Python truthiness of the raw value: any non-empty
  string counts, even one made only of whitespace. Such a whitelist has no
  token, so it refuses every tree (`BlankWhitelistDeniesAll`). This case
  arises only when an unstripped value reaches the gate. `configparser` strips
  option values, so a blank `tree_whitelist =` line in `labs.ini` reads as `""`.
  That value counts as not set, and the lab falls through to the blacklist.

## Model

| member | source | states |
|---|---|---|
| `PyStrings.Words` | should-I-boot-this.py:50 | every token of `s.split()` is non-empty and contains no whitespace |
| `PyStrings.WordsAtSpace` | should-I-boot-this.py:50 | any single whitespace character (space, tab, newline, ...) separates tokens: the split of `a + c + b` is the split of `a` followed by the split of `b`; with `WordsOfWord` and `WordsEmpty` this fixes the split of every string |
| `PyStrings.WordsOfJoin` | should-I-boot-this.py:50 | round trip: tokens joined by spaces split back into exactly those tokens, in order |
| `PyStrings.WordsKeepNonSpace` | should-I-boot-this.py:50 | the tokens of `s.split()`, concatenated, are the non-whitespace characters of `s` in order: splitting drops only whitespace |
| `PyStrings.WordsEmpty` | should-I-boot-this.py:50 | `s.split()` is empty exactly when `s` is all whitespace |
| `PyStrings.SplitOn` | should-I-boot-this.py:53-54 | `s.split(sep)` has one piece more than `s` has separators, has at least two pieces exactly when `sep` occurs in `s`, and no piece contains `sep` |
| `PyStrings.JoinSplitOn` | should-I-boot-this.py:53-54 | round trip: joining the pieces of `s.split(sep)` with `sep` gives back `s` |
| `PyStrings.SplitOnFirst` | should-I-boot-this.py:53-54 | piece 0 is the text before the first separator; the later pieces are those of the text after it |
| `PyStrings.SplitOnNoSep` | should-I-boot-this.py:52-54 | a string without the separator splits into itself alone |
| `BootGate.ExitCode` | should-I-boot-this.py:43-74 | the exit status is 0 or 1, and 0 exactly for an allowed boot |
| `BootGate.Evaluate` | should-I-boot-this.py:39-74 | the cascade with its early-exit scan over whitelist tokens returns the verdict `Decide` specifies, and that verdict's exit status |
| `BootGateProperties.UnknownLabDenied` | should-I-boot-this.py:40-43 | a lab without a section is refused with exit status 1 for every tree and branch |
| `BootGateProperties.UnknownLabOnlyFromLookup` | should-I-boot-this.py:40-43 | the unknown-lab verdict occurs exactly when the lab has no section |
| `BootGateProperties.WhitelistDecides` | should-I-boot-this.py:48-63 | with a non-empty whitelist the verdict is `Allowed` exactly when some token matches, and otherwise `DeniedNotWhitelisted` |
| `BootGateProperties.UnlistedTreeDeniedUnderWhitelist` | should-I-boot-this.py:62-63 | with a non-empty whitelist and no matching token, the verdict is `DeniedNotWhitelisted` whatever the blacklist says |
| `BootGateProperties.BlacklistIgnoredUnderWhitelist` | should-I-boot-this.py:49-66 | while a whitelist is set, replacing or removing the blacklist does not change the verdict |
| `BootGateProperties.WhitelistedBlacklistedTreeAllowed` | should-I-boot-this.py:58-67 | a tree named by a bare whitelist token boots even when the blacklist names it too |
| `BootGateProperties.BlankWhitelistDeniesAll` | should-I-boot-this.py:48-63 | a whitelist of only whitespace is set but has no token, so it refuses every tree |
| `BootGateProperties.WhitelistOrderIrrelevant` | should-I-boot-this.py:51-63 | two token lists with the same elements whitelist the same (tree, branch) pairs: token order and repetition do not matter |
| `BootGateProperties.WhitelistValueOrderIrrelevant` | should-I-boot-this.py:50-63 | two whitelist values that are both set or both unset and have the same tokens, in any order and with any whitespace between them, give the same verdict for every request |
| `BootGateProperties.BareTokenIgnoresBranch` | should-I-boot-this.py:58-61 | a token without `#` matches exactly the tree equal to it, on any branch |
| `BootGateProperties.QualifiedTokenMatches` | should-I-boot-this.py:52-57 | `TREE#BRANCH` matches exactly that tree on exactly that branch |
| `BootGateProperties.ExtraFieldsIgnored` | should-I-boot-this.py:53-55 | `a#b#rest` matches exactly tree `a` on branch `b`; the text after the second `#` is ignored |
| `BootGateProperties.TrailingDelimiterNeedsEmptyBranch` | should-I-boot-this.py:53-55 | `a#` matches tree `a` only on the empty branch |
| `BootGateProperties.DelimiterInTreeNeverMatches` | should-I-boot-this.py:52-61 | no token matches a tree name that contains `#` |
| `BootGateProperties.DelimiterInTreeNeverWhitelisted` | should-I-boot-this.py:49-63 | under a non-empty whitelist, a tree name containing `#` is always refused |
| `BootGateProperties.BlacklistDecides` | should-I-boot-this.py:66-74 | without a set whitelist, the verdict is `DeniedBlacklisted` exactly when the blacklist is set and names the tree as a token, and `Allowed` otherwise |
| `BootGateProperties.BlacklistTokens` | should-I-boot-this.py:66-70 | a blacklist written as tokens refuses exactly the trees it lists |
| `BootGateProperties.NoRulesAllowAll` | should-I-boot-this.py:72-74 | a lab with neither list set allows every tree on every branch |
| `BootGateProperties.WhitelistExample` | should-I-boot-this.py:49-63 | with whitelist `foo bar#dev`, `foo` boots on any branch, `bar` only on `dev`, and every other request is refused |
| `BootGateProperties.BlacklistExample` | should-I-boot-this.py:66-74 | with blacklist `foo bar` and no whitelist, `foo` and `bar` are refused and every other tree boots |

## Left out

- The environment reads of `LAB`, `TREE` and `BRANCH` (lines 35-37) are process input. They are parameters here, and the startup failure when one is missing is not modelled.
- `labs.ini` is not parsed; `configparser` (lines 32-33, 40, 45, 48, 66) is not part of this model. The configuration is a given map from section name to the two raw option values. So the model does not capture the library's own rules: value stripping, case-folding of option names, the `DEFAULT` section, which `sections()` leaves out but `lab.get` falls back to, and interpolation.
- The status lines printed to standard output (lines 41-42, 56, 60, 62, 68-69, 72-73) are not modelled; they do not affect the verdict.
- `sys.exit` is not modelled as a process exit. `Evaluate` returns the status it would pass, and it returns at each point where the script exits.
- Non-ASCII whitespace is assumed to be the fixed set listed above. It follows the Unicode database of Python 3 and is not derived from it.
- Idempotence of the gate is not stated as a lemma. `Decide` is a function, so equal inputs give equal verdicts by construction.
