# batch.rename in Dafny

A model of the rename pipeline of `batch.rename.rb`, a Ruby 1.8 command-line
renamer. The script scans the working directory for candidates. It keeps
the candidates matching a PATTERN (or all of them under `-a`). It then builds
an old-name → new-name hash with one editing mode: substitution, upper or
lower case, trim, append or prepend. Last, it renames every pair whose
target is not already a candidate (every pair under `-F`) and prints a
summary: renames, considered and objects, plus the clobber count under
`-F`.

Modules, one file each:

- `Wrappers` (`wrappers.dfy`): `Option` and `Result`.
- `Text` (`text.dfy`): the string built-ins the script uses. These are
  ASCII `upcase`/`downcase`, `strip`, and `match`/`gsub` with a pattern read
  as literal text (leftmost, non-overlapping replacement).
- `Regexps` (`regexps.dfy`): `String#to_regexp`. It splits `/body/flags` at
  its last slash, rejects flags other than `x`, `i` and `m`, and builds the
  option mask.
- `Listing` (`listing.dfy`): the candidate scan (`Kept`, `Counted`) and the
  pattern partition (`Matched`, `Unmatched`, `Selected`) as specification
  functions, with their order and membership lemmas.
- `Rewrites` (`rewrites.dfy`): the editing modes as a closed datatype. It
  has the hash each mode's `each_key` loop fills (`SubHash`), and that loop
  itself (`BuildSubHash`).
- `Execution` (`execution.dfy`): the decisions of `rename_action` as
  functions of the final hash and the candidate snapshot (`Renamed`,
  `Clobbered`, `Applied`), with the forced and unforced counting lemmas.
- `Filelists` (`filelists.dfy`): `class Filelist`. Its fields are the
  script's instance variables, plus the directory as a set of names and the
  log of `File.rename` calls. Each method of the Ruby class that takes part
  in a run is a method here, proved against the specification functions
  above; `option_check` (`batch.rename.rb:452-458`) only prints and is never
  called, and is not modelled.
- `BatchRename` (`batchrename.dfy`): `batch_rename`. It covers the options
  record, the positional-argument rule, the mode precedence and the wrapping
  of the pattern. `Plan` and `Summary` state what a whole run does. The
  `BatchRename` method drives a `Filelist` through the run and is proved
  against them.

The operating system is a parameter. The directory listing is a sequence
of `Entry(name, isDir)` values, standing for `Dir.foreach` and
`File.directory?`. The directory is a set of names that `RenameFile`
updates. Every early exit of the script (`exit`, the division by zero at
`batch.rename.rb:236-239`, the exception `key + nil` or `nil + key` raises
at `batch.rename.rb:398-399`) is a `Stop` value.

Names are Ruby 1.8 strings, which are sequences of bytes: `String#length`,
`String#slice` and `String#gsub` count and cut bytes. A name is therefore a
`string` holding one element per byte, each below 256; `é` is the two
elements `\U{C3}\U{A9}`. Lengths and cuts in the model are byte counts under
this reading (`Rewrites.ByteTrimScenario`).

Behaviour the model takes from the code:

- Trim direction follows the code and the help text at
  `batch.rename.rb:162`. A positive `n` removes the last `n` bytes, a
  negative `n` the first `|n|` bytes (`Rewrites.TrimScenario`).
- "considered" in the summary is `@searchcount`, the number of candidates
  before the pattern filter (`batch.rename.rb:244`), not the filtered count.
- With `-A`/`-P` and a single positional argument, the argument is the text
  to add and the pattern is nil. Without `-a` the run therefore still stops
  in `pattern` with the usage message.
- With `-A`/`-P`, no positional argument and `-a`, `xx_pend` evaluates
  `key + nil` under `-A` (`batch.rename.rb:398`) or `nil + key` under `-P`
  alone (`batch.rename.rb:399`), which raises. The model stops with `NilReplacement` when the
  hash has a key.
- A key mapped to itself under `-F` is renamed and counted as clobbered.
  Two keys with the same new name are both renamed, because the collision
  check only looks at the original candidate list.
- Ruby 1.8's `Hash` has no defined iteration order. The loops pick their
  next key with `:|`, and every count is stated as the size of a set defined
  without reference to order.

## Model

| member | source | states |
|---|---|---|
| `Text.UpcaseFacts` | batch.rename.rb:294-296 | `upcase` keeps the length, leaves no lower-case letter, changes only letter case, and is idempotent |
| `Text.DowncaseFacts` | batch.rename.rb:311-313 | `downcase` keeps the length, leaves no upper-case letter, changes only letter case, and is idempotent |
| `Text.StripLeading` | batch.rename.rb:102 | the leading part `strip` removes is whitespace only, and what is left does not start with whitespace |
| `Text.StripTrailingNuls` | batch.rename.rb:102 | the first pass of Ruby 1.8's `rstrip` removes exactly the trailing NULs |
| `Text.StripTrailingSpaces` | batch.rename.rb:102 | the second pass removes exactly the trailing whitespace |
| `Text.StripTrailing` | batch.rename.rb:102 | Ruby 1.8's `rstrip` removes whitespace followed by NULs; what is left does not end with whitespace, and ends with a NUL only when whitespace was removed right after it |
| `Text.NulBeforeSpaceKept` | batch.rename.rb:102 | `"x\0 "` strips to `"x\0"`: the NUL that whitespace follows is kept |
| `Text.Strip` | batch.rename.rb:102 | `String#strip`: `lstrip`, then Ruby 1.8's `rstrip` |
| `Text.OccursAtSomePosition` | batch.rename.rb:261 | a literal pattern matches a name exactly when some suffix of the name starts with it |
| `Text.ReplaceAllWithoutOccurrence` | batch.rename.rb:381 | `gsub` leaves a name unchanged when the non-empty pattern does not occur in it |
| `Text.ReplaceAllBySelf` | batch.rename.rb:381 | replacing a pattern by itself, case-sensitively, changes no name |
| `Text.InsertNothing` | batch.rename.rb:381 | `gsub` of the empty pattern by the empty string changes nothing |
| `Text.ReplaceAllSameLength` | batch.rename.rb:381 | a replacement as long as the pattern keeps the length of the name |
| `Text.ReplaceAll` | batch.rename.rb:381 | `String#gsub` with the pattern read as literal text: scanning left to right, a match is replaced and the scan resumes after it; the empty pattern inserts the replacement between every two bytes and at both ends |
| `Text.ReplaceAllLeftmost` | batch.rename.rb:381 | for every name `a + p + b` in which `p` first occurs right after `a`, `gsub` gives `a`, the replacement, then the `gsub` of `b`: the leftmost occurrence is replaced and no occurrence overlapping it is |
| `Text.ReplaceAllAtMatch` | batch.rename.rb:381 | a name starting with the pattern has that occurrence replaced and the rest scanned after it |
| `Text.ReplaceAllSkip` | batch.rename.rb:381 | a name not starting with the pattern keeps its first byte and the rest is scanned |
| `Text.LeftmostNonOverlapping` | batch.rename.rb:381 | two instances: "aaa" with "aa" → "b" is "ba"; `foo.txt` with `foo` → `baz` is `baz.txt` |
| `Text.FirstCharAbsent` | batch.rename.rb:261 | case-sensitively, a pattern whose first byte is not in a name does not match it |
| `Text.Occurs` | batch.rename.rb:262 | `$pattern_re.match(a)` with the pattern read as literal text: some suffix of the name starts with the pattern, after ASCII case folding under IGNORECASE |
| `Regexps.Matches` | batch.rename.rb:262 | the test the filter loop makes: `Text.Occurs` of the pattern's source in the name, case-folded exactly when the IGNORECASE bit is set |
| `Text.AsciiUpcase` | batch.rename.rb:295 | `String#upcase` in Ruby 1.8: every ASCII lower-case letter becomes upper-case, every other byte is kept |
| `Text.AsciiDowncase` | batch.rename.rb:312 | `String#downcase` in Ruby 1.8: every ASCII upper-case letter becomes lower-case, every other byte is kept |
| `Regexps.LastIndexOf` | batch.rename.rb:102 | the position found holds the character and no later position does; None when the character is absent |
| `Regexps.SlashForm` | batch.rename.rb:102-103 | the stripped text has the slash form exactly when it starts with `/` and has another `/`; it then reassembles from body and flags, and the flags hold no `/` (the greedy first group) |
| `Regexps.OptionMask` | batch.rename.rb:106-110 | the mask is below 8 and has the IGNORECASE, EXTENDED and MULTILINE bit exactly when `i`, `x`, `m` is among the flags, each counted once |
| `Regexps.ToRegexp` | batch.rename.rb:100-111 | any pattern built has an option mask in 0..7 |
| `Regexps.ToRegexpSlashForm` | batch.rename.rb:100-111 | `/body/flags` with slash-free flags whose last byte is not whitespace or NUL (so that `strip` leaves the text alone) gives back the whole body (slashes included) and the flags' mask, and gives nil exactly when a flag is not `x`, `i` or `m` |
| `Regexps.LastIndexOfIsLast` | batch.rename.rb:102 | a position holding the character with none after it is the last occurrence |
| `Regexps.LastSlashBeforeFlags` | batch.rename.rb:102-103 | in `/body/flags` the last slash is the one before the flags |
| `Regexps.LastSlashUnique` | batch.rename.rb:102-103 | `/body/flags` with slash-free flags splits into body and flags in one way only |
| `Regexps.WrappedPatternRoundTrip` | batch.rename.rb:486 | for every `p`, `"/p/"` parses to `p` with no option and `"/p/i"` to `p` with IGNORECASE alone |
| `Regexps.WrappedWith` | batch.rename.rb:100-111 | `/p/` and `/p/i` parse to the whole of `p`, with mask 0 and IGNORECASE respectively |
| `Listing.NameSet` | batch.rename.rb:217 | the names the working directory holds before the run, as `Dir.foreach` lists them; the `Filelist` constructor and `BatchRename` start the directory from it |
| `Listing.Kept` | batch.rename.rb:217-231 | `@orig_list_array` after the `Dir.foreach` loop: the names of the entries that are not `.` or `..` and that the directory policy admits, appended in listing order |
| `Listing.Counted` | batch.rename.rb:219-220 | `@filecount` after the loop: one for every entry other than `.` and `..`, directories included |
| `Listing.KeptMembers` | batch.rename.rb:217-231 | a name is a candidate exactly when some entry has it, it is not `.` or `..`, and the policy admits the entry (default: no directory, `-D`: directories only, `-d`: all) |
| `Listing.KeptInOrder` | batch.rename.rb:217-231 | the candidates appear in listing order |
| `Listing.SubsequenceExtend` | batch.rename.rb:230 | appending to a list keeps every subsequence of it a subsequence |
| `Listing.KeptBounds` | batch.rename.rb:220-244 | `@searchcount` ≤ `@filecount` ≤ the number of entries |
| `Listing.Matched` | batch.rename.rb:261-267 | `positive_array`: the candidates the pattern matches, appended in order |
| `Listing.Unmatched` | batch.rename.rb:261-267 | `negative_array`: the candidates the pattern does not match, appended in order |
| `Listing.Selected` | batch.rename.rb:270-274 | `@list_array` after the filter: the unmatched side under `-i`, the matched side otherwise |
| `Listing.PartitionInterleaves` | batch.rename.rb:261-267 | the matched and unmatched arrays interleave to the candidate list: they split it, each in order |
| `Listing.InterleavingSides` | batch.rename.rb:261-267 | each side of the split is an order-preserving subsequence of the candidates |
| `Listing.PartitionMembers` | batch.rename.rb:261-267 | a name is matched exactly when it is a candidate the pattern matches, and unmatched exactly when it is a candidate the pattern does not match |
| `Rewrites.IdentityHash` | batch.rename.rb:283 | `create_hash` has exactly the filtered names as keys, each mapped to itself |
| `Rewrites.SubHash` | batch.rename.rb:294-296 | a mode's hash only has keys it was given |
| `Rewrites.BuildSubHash` | batch.rename.rb:334-352 | the `each_key` loop, visiting keys in any order, fills exactly the hash `SubHash` describes |
| `Rewrites.CaseHash` | batch.rename.rb:287-318 | upcase/downcase keep every filtered name; each new name has its key's length and differs only in letter case; the mode maps each new name to itself, so running it again changes nothing |
| `Rewrites.TrimHash` | batch.rename.rb:321-357 | trim by `n ≠ 0` keeps a name exactly when it is longer than `abs(n)`; the new name is non-empty and `abs(n)` shorter; a positive `n` cuts from the end and a negative `n` from the start |
| `Rewrites.AffixHash` | batch.rename.rb:397-402 | append maps `k` to `k + r`, prepend to `r + k`, and with both flags prepend wins |
| `Rewrites.GsubHash` | batch.rename.rb:380-384 | substitution keeps every filtered name; a name the pattern does not occur in is unchanged; a same-length replacement keeps lengths; replacing the pattern by itself renames nothing |
| `Rewrites.TrimScenario` | batch.rename.rb:334-352 | `report.doc` with `-t 4` becomes `report`, with `-t -4` becomes `rt.doc`, and with `-t 10` is left out |
| `Rewrites.ByteTrimScenario` | batch.rename.rb:334-352 | trim counts bytes: `é` (C3 A9) with `-t 1` becomes the lone byte C3, and `café.txt` with `-t -4` becomes A9 `.txt` |
| `Rewrites.Rewritten` | batch.rename.rb:294-399 | the new name each mode's `each_key` loop gives one key: upcase (:295), downcase (:312), the trim bounds check and cut (:337-338, :348-349), `gsub` (:381), and append then prepend (:398-399), or no entry when the trim bound fails |
| `Execution.ClobberFree` | batch.rename.rb:418 | the guard of the clobber-free branch: the key differs from its target and the target is not in the snapshot `@orig_list_array` |
| `Execution.Performs` | batch.rename.rb:418-436 | a pair reaches `File.rename` exactly when it is clobber-free or `-F` is given |
| `Execution.Applied` | batch.rename.rb:421-433 | the directory after a sequence of `File.rename(key, value)` calls: each removes its key and adds its target, in call order |
| `Execution.NonEmpty` | batch.rename.rb:413 | `delete_if` keeps exactly the pairs whose target is not empty, with their targets |
| `Execution.Renamed` | batch.rename.rb:415-438 | only keys of the hash are renamed |
| `Execution.Clobbered` | batch.rename.rb:431-436 | every clobbered key is also counted as renamed |
| `Execution.SubsetCard` | batch.rename.rb:434-435 | a subset is no larger than its superset (so `@clobbercount` ≤ `@renamecount`) |
| `Execution.UnforcedDecision` | batch.rename.rb:418-430 | without `-F` a candidate key is renamed exactly when its target is not a candidate; identity pairs are skipped |
| `Execution.UnforcedCounts` | batch.rename.rb:413-430 | without `-F` nothing is clobbered and `@renamecount` ≤ the number of remaining pairs |
| `Execution.ForcedCounts` | batch.rename.rb:418-436 | with `-F` every remaining pair is renamed; the clobbered keys are exactly those whose target is a candidate; `@clobbercount` ≤ `@renamecount` = the number of pairs |
| `Execution.ForcedIdentity` | batch.rename.rb:418-436 | with `-F` a key mapped to itself counts as a rename and as a clobber |
| `Execution.SharedTargetRenamedTwice` | batch.rename.rb:418 | two candidates given the same new name are both renamed |
| `Execution.ClobberScenario` | batch.rename.rb:418-436 | `x.txt` → existing `y.txt` is skipped without `-F` and renamed and counted as clobbered with it |
| `Filelists.Filelist.constructor` | batch.rename.rb:203-246 | the scan loop builds exactly `Kept` and `Counted` of the listing; `@searchcount` is the number of candidates; the hash and counters start empty |
| `Filelists.Filelist.Pattern` | batch.rename.rb:249-276 | without a pattern the run stops; otherwise the loop fills the two arrays and `@list_array` becomes the unmatched side under `-i`, the matched side otherwise; `@orig_list_array` is not touched |
| `Filelists.Filelist.CreateHash` | batch.rename.rb:279-284 | `@list_hash` becomes the identity hash of `@list_array` |
| `Filelists.Filelist.Upcase` | batch.rename.rb:287-301 | `@list_hash` becomes the identity hash merged with the upcased names |
| `Filelists.Filelist.Downcase` | batch.rename.rb:304-318 | `@list_hash` becomes the identity hash merged with the downcased names |
| `Filelists.Filelist.Trim` | batch.rename.rb:321-357 | `-t 0` stops the run; otherwise `@list_hash` is replaced by the trimmed names alone |
| `Filelists.Filelist.Substitute` | batch.rename.rb:360-386 | `-i` without `-a` stops the run; otherwise (`-a` only warns) `@list_hash` becomes the identity hash merged with the `gsub` of every name |
| `Filelists.Filelist.AppendOrPrepend` | batch.rename.rb:389-404 | a nil replacement with a non-empty hash stops the run; otherwise `@list_hash` becomes the identity hash merged with the affixed names |
| `Filelists.Filelist.RenameFile` | batch.rename.rb:421 | `File.rename` moves one name in the directory and is logged |
| `Filelists.Filelist.Visit` | batch.rename.rb:415-438 | one pair: a clobber-free pair is renamed; another pair is renamed and counted as clobbered under `-F` only, and left alone otherwise |
| `Filelists.Filelist.RenamePairs` | batch.rename.rb:415-438 | the `each_pair` loop, in any visiting order, renames exactly the pairs `Performs` picks, counts them and the forced ones, logs each pair once, and leaves the directory with those renames applied |
| `Filelists.Filelist.RenameAction` | batch.rename.rb:407-449 | empty targets are dropped; `@renamecount` and `@clobbercount` are the sizes of `Renamed` and `Clobbered`, whatever the visiting order; exactly the renamed pairs are passed to `File.rename`; the directory is the listing with those renames applied |
| `BatchRename.Positional` | batch.rename.rb:469-483 | under `-A`/`-P` two arguments are pattern and text and one is the text alone; otherwise the first is the pattern and the second the replacement, defaulting to `''`; the replacement is nil only under `-A`/`-P` with no argument |
| `BatchRename.SelectMode` | batch.rename.rb:504-517 | the mode is the first of `-u`, `-l`, `-t`, `-A`/`-P` that is set, and substitution when none is |
| `BatchRename.PolicyOf` | batch.rename.rb:223-230 | `-D` wins over `-d`, which wins over the files-only default |
| `BatchRename.PatternRegexp` | batch.rename.rb:486 | `$pattern_re` has the pattern's text (empty for nil) and ignores case exactly under `-c` |
| `BatchRename.PatternParses` | batch.rename.rb:486 | to_regexp of the wrapped pattern always succeeds and gives `PatternRegexp` |
| `BatchRename.Wrapped` | batch.rename.rb:486 | the text handed to `to_regexp`: `/#{$pattern}/`, or `/#{$pattern}/i` under `-c`, with nil interpolated as the empty string |
| `BatchRename.ModeHash` | batch.rename.rb:504-517 | the hash the selected mode leaves for `rename_action` on the filtered list, or the reason it stops (`-t 0`, `-i` without `-a`, no pattern, nil text with a non-empty list) |
| `BatchRename.Plan` | batch.rename.rb:464-517 | everything a run decides before `rename_action`: the help and version stops, the scan, the empty-scan and missing-pattern stops, the filter unless `-a`, and the mode's hash |
| `BatchRename.Summary` | batch.rename.rb:443-447 | how a run ends: the stop reason, or `@renamecount`, `@clobbercount`, `@searchcount` and `@filecount` after `rename_action` |
| `BatchRename.RunMode` | batch.rename.rb:504-517 | the `case` runs the selected mode and ends with the hash `ModeHash` describes, or with its stop reason |
| `BatchRename.Prepare` | batch.rename.rb:464-517 | up to `rename_action`, the run stops exactly as `Plan` says, or leaves a fresh `Filelist` holding `Plan`'s hash, the scan's candidates and the untouched directory |
| `BatchRename.BatchRename` | batch.rename.rb:464-521 | the run ends as `Summary` says; a stopped run renames nothing; otherwise the renames are the pairs of the non-empty hash that `Renamed` picks, one call each, and the directory is the listing with them applied |
| `BatchRename.ModeHashKeys` | batch.rename.rb:279-404 | every mode's hash has only filtered names as keys |
| `BatchRename.PlanKeys` | batch.rename.rb:249-283 | every key of the final hash is a candidate of the scan |
| `BatchRename.DrawnFrom` | batch.rename.rb:244 | a set of names drawn from a list has at most as many members as the list |
| `BatchRename.SummaryCounts` | batch.rename.rb:443-447 | in the summary, clobbered ≤ renames ≤ considered ≤ objects |
| `BatchRename.SummaryUnforced` | batch.rename.rb:443-447 | without `-F` nothing is counted as clobbered |
| `BatchRename.EarlyStops` | batch.rename.rb:492-502 | `-h` stops first, then `-v`; after them an empty scan stops the run exactly when it finds nothing; without `-a` and without arguments the run stops for the missing pattern |
| `BatchRename.SampleScan` | batch.rename.rb:217-231 | a listing of `.`, `..`, `foo.txt`, `bar.txt` and directory `sub` gives candidates `foo.txt`, `bar.txt` and 3 objects |
| `BatchRename.SampleMatches` | batch.rename.rb:261 | pattern `foo` matches `foo.txt` and not `bar.txt` |
| `BatchRename.SampleFilter` | batch.rename.rb:261-274 | pattern `foo` keeps `foo.txt` and drops `bar.txt` |
| `BatchRename.SampleSubstitution` | batch.rename.rb:504-517 | substitution of `foo` by `baz` on `foo.txt` gives the hash `foo.txt` → `baz.txt` |
| `BatchRename.SampleGsub` | batch.rename.rb:380-384 | the identity hash of `foo.txt` merged with its `gsub` of `foo` by `baz` is `foo.txt` → `baz.txt` |
| `BatchRename.SampleGsubName` | batch.rename.rb:381 | `foo.txt` with `foo` replaced by `baz` is `baz.txt` |
| `BatchRename.SamplePlan` | batch.rename.rb:464-517 | `batch.rename foo baz` in that directory hands rename_action the hash `foo.txt` → `baz.txt` |
| `BatchRename.SampleRename` | batch.rename.rb:418-422 | that pair is renamed without `-F`, since `baz.txt` is not a candidate, and nothing is clobbered |
| `BatchRename.SubstitutionScenario` | batch.rename.rb:464-521 | `batch.rename foo baz` in that directory ends with 1 rename, 0 clobbered, 2 considered, 3 objects |

## Left out

- Option parsing with Getopt::Declare (`batch.rename.rb:24-97`) is a third-party parser. The options are a plain record. Its declared exclusions and requirements (for example `-i` requiring `-u` or `-l`) are not enforced, and neither is the double declaration of `-c` (ignore case and confirm).
- `-c --confirm`, `-s --step`, `--debug`, `-V` and `-q` only print or are never read. They are not modelled.
- The `Output` module, the help, version and usage texts, the `verbose`/`loud` lines and the summary `puts` are output only. The summary's numbers are the fields of `Done`.
- `` `pwd` `` and its nil check, `Dir.foreach`, `File.directory?` and `File.rename` are operating-system calls. They become the listing parameter and the directory set. Failing renames, renames onto directories and races with other processes are not modelled.
- Ruby's regular-expression engine is not modelled: metacharacters, `\1`/`\0` in the replacement, the effect of the `x` and `m` options, and errors from `Regexp.new`. A pattern's source is matched and replaced as literal text. The option mask only decides case-insensitive matching.
- Case conversion covers ASCII letters only, as `String#upcase`/`downcase` do in Ruby 1.8.
- Names are byte strings held one byte per `string` element. The model does not encode or decode UTF-8, and its types do not require each element to be below 256. A name given as Unicode characters instead would be measured and cut by characters, which Ruby 1.8 never does.
- Rewrites.TrimHash: its lengths, the bound `abs(n) < length` and the cuts count `string` elements. They are Ruby 1.8's byte counts only when the name holds one byte per element, as above; on a name given as Unicode characters the model would keep `é` under `-t 1` where Ruby cuts it to one byte.
- Filelists.Filelist.Trim: trims by `string` elements, for the same reason. It matches the script byte for byte on names held one byte per element.
- Text.ReplaceAll: for the empty pattern it inserts the replacement between elements. That is between bytes, as Ruby 1.8's `gsub` does, only on names held one byte per element.
- The `next` at `batch.rename.rb:502` stands outside any loop. As written, a `-a` run never reaches the mode dispatch at `batch.rename.rb:504`: Ruby 1.8 ends it with "unexpected next". The model follows the evident intent instead: under `-a` the pattern filter is skipped and the mode runs, so every `-a` path through `Plan` and `ModeHash` is intended behaviour, not what the script does.
- The order of the renames depends on Ruby's hash order and is not stated. `RenameAction` and `BatchRename` state which pairs are renamed and how many, not their order.
- Filelists.Filelist.RenameAction: does not state the order of the `File.rename` calls, because Ruby 1.8 does not define the order of `Hash#each_pair`.
- BatchRename.BatchRename: does not state the order of the renames, for the same reason.
