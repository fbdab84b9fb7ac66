# Shakti: a verified model

Shakti is a sudo-like privilege tool. It reads a policy file, decides whether a caller may run a command as
another user, authenticates the caller, drops privilege to the target user (optionally keeping a named set of
Linux capabilities), stages a security-module context and executes the command, on a PTY where the session is
logged. This project models that path in Dafny 4.11, from the bytes of the policy file to `execve`, and
proves what the program promises about it.

`dafny verify dfyconfig.toml` checks everything.

## How it is modelled

The Cyrius code under `src/` works with index loops over buffers and fills in heap records, so the model does
too: methods with loops and invariants, arrays that are sorted and filled in place, and classes whose methods
update fields (`PolicyRec`, `RuleRec`, `Process`, `LsmNodes`, `Terminal`, `Console`, `CredentialCache`,
`Session`). Each method is proved equal to a function of its input or of the old state, or against a relation
stated without the code's loops. The properties of whole inputs and whole runs are lemmas about those
functions and relations. Where a main loop of the source is long, its body is cut into named methods.

| file | what it holds |
|---|---|
| `Text.dfy` | byte strings, scanning, trimming, bounded decimal numbers |
| `PolicySpec.dfy`, `PolicyParser.dfy` | policies; the parser as a function on the unread text, and as loops over the buffer |
| `PolicyLayout.dfy` | a grammar of policy files, and the law that their layout does not matter |
| `PolicyRoundTrip.dfy` | a canonical printer and the proof that parsing inverts it |
| `Fragments.dfy` | sorted loading of policy fragments |
| `Matcher.dfy`, `Authorization.dfy` | command patterns and the rule engine, each also in its Rust form |
| `Caps.dfy` | capability names, sets and masks |
| `Credentials.dfy`, `PrivilegeDrop.dfy` | kernel credentials as in capabilities(7), and the drop |
| `Lsm.dfy` | staging a security context |
| `Relay.dfy` | the PTY relay |
| `Password.dfy`, `Timestamp.dfy` | the prompt and the credential cache |
| `Passwd.dfy`, `Environment.dfy` | the password file readers and the environment |
| `ExecGate.dfy` | evaluation and one whole run, over all of the above |

Conventions:

- A byte is a `char`, and a byte string a `string`; statements about every `string` cover every byte string.
  A NUL-terminated reading of a buffer is written out (`CStr`), so embedded NULs are part of every statement.
- Masks are natural numbers whose binary digits are read by recursion (`Bit`, `SetBit`, `Low`, `Shr`, `Glue`),
  which is what `&`, `|`, `<<` and `>>` do on a non-negative 64-bit word.
- A system call is a step whose result the environment chooses. `Process.script` lets any call that changes
  credentials behave, fail, or report success without any effect; reads and writes are scripted by their sizes.
  The calls that observe credentials (getuid, getgid and capget) may fail but do not lie: they are what the drop
  is judged by.
- The capability model follows "Effect of user ID changes on capabilities", "Programmatically adjusting
  capability sets" and "Transformation of capabilities during execve()" of capabilities(7).

## Where the code and its documentation part

- `docs/examples/README.md:83` says that mixed quoting works. Only double quotes protect anything. In an array a
  single-quoted item reads back in front of every text if and only if its double quotes are paired and its
  brackets outside of them balanced, none closing before it opened (`PolicyLayout.SingleQuotedItemExactly`; for
  whole arrays `PolicyLayout.ArrayReadsBackExactly`). As a scalar a single-quoted text reads back if and only if
  it holds no `#` outside double quotes (`PolicyLayout.SingleQuotedScalarExactly`). The layout law covers exactly
  the arrays that read back.
- `docs/development/issues/2026-04-19-mini-toml-parser-limits.md:100-103` says that a malformed array makes its
  rule match no commands. An empty list allows every command (`src/policy.cyr:779-791`): a `commands` entry leaves
  its rule allowing everything it does not deny if and only if its value is not an opening bracket with a quote
  and then a closing bracket after it (`Authorization.MalformedListAllowsAll`).
- The byte after an array's closing bracket is always skipped, whatever it is (`src/policy.cyr:603-604`). In the
  grammar it is the field `next` of an array line, and what comes after it is a new line.
- A comment of the parser (`src/policy.cyr:452-454`) asks for arrays on one line; the code reads them over any
  number of lines, and the layout law covers that.
- On a kernel older than the table a capability drop never succeeds, whatever the mask
  (`PrivilegeDrop.DropPrivileges`). The exact capability set of ADR 007 holds for a root target only on a kernel
  that knows no capability beyond the table's 41: the bounding-set loop stops at 40, and execve gives a root
  process the bounding set. The condition is exact (`PrivilegeDrop.ExactCapabilities`).
- ADR 010 calls a smaller group list safe because it can only deny. With `deny_commands` on a rule that some
  callers reach only through its group, a smaller list can also allow. `Authorization.GroupMonotoneExactly`
  says exactly which rules do that.
- `src/validate.cyr:7` says that its criteria mirror the original bit for bit. For patterns they do not: commands
  whose path holds a doubled slash or a dot, which command resolution copies unchanged, are matched differently,
  and a command that the original denies by its directory can pass in the port
  (`Authorization.DoubledSlashPassesDeny`). Where both agree is exact, for the matchers (`Matcher.AgreeExactly`)
  and for the engines (`Authorization.EnginesAgreeExactly`).

## Model

| member | source | states |
|---|---|---|
| PolicyLayout.LinesParse | src/policy.cyr:455-608 | The layout law: a file of well-formed lines, with any indentation, spacing, line breaks in arrays, comments and blank lines, parses to the meaning of its entries, and parsing goes on with whatever follows |
| PolicyLayout.LineParse | src/policy.cyr:472-606 | One laid-out line in front of any text at all has its meaning and consumes exactly itself |
| PolicyLayout.ArrayReadsBack | src/policy.cyr:265-328 | A body of quoted items with any whitespace between tokens and optional commas gives its items, also when items contain brackets, commas or `#` |
| PolicyLayout.ScanBody | src/policy.cyr:559-572 | The bracket scan stops at the array's own bracket in front of every text if and only if the text between the brackets is balanced |
| PolicyLayout.BalancedElems | src/policy.cyr:559-572 | Double-quoted items always, and single-quoted items that are balanced one by one, make a balanced array |
| PolicyLayout.ArrayReadsBackExactly | src/policy.cyr:265-328 | An array of quoted items is read in front of every text as its own text and its items if and only if it is balanced |
| PolicyLayout.InsertedLinesChangeNothing | docs/examples/README.md:43-56 | Blank and comment lines between entries leave the whole policy unchanged, even in front of text outside the grammar |
| PolicyLayout.OtherSectionsIgnored | src/policy.cyr:500-511 | Entries before the first header and under a header that names neither table change nothing |
| PolicyLayout.FinalNewlineOptional | src/policy.cyr:455-608 | For every text, malformed ones included, a final newline makes no difference |
| PolicyLayout.SingleQuotedItemExactly | docs/examples/README.md:82-83 | A single-quoted item reads back in front of every text if and only if it is balanced |
| PolicyLayout.SingleQuotedScalarExactly | docs/examples/README.md:82-83 | A single-quoted scalar reads back if and only if it holds no `#` outside double quotes |
| PolicyLayout.SingleQuotedBracketCloses | src/policy.cyr:559-577 | The plainest failing items: a closing bracket after a text with no quote or bracket ends the array, and the item is cut |
| PolicyRoundTrip.SparseRoundTrip | src/policy.cyr:75-130 | The round trip for every choice of entries to leave out among those that only repeat a default: parsing gives back exactly the policy, so every default of both tables is the one written out in the printer |
| PolicyRoundTrip.RoundTrip | src/policy.cyr:187-608 | Parsing the full rendering of a policy gives back exactly that policy, with rule order, absent optionals and inherited tri-states |
| PolicyRoundTrip.SilentRule | src/policy.cyr:75-130 | A rule that names only its user is for root, every command, with authentication, no capability list, no contexts and inherited logging, under the standard defaults |
| PolicyRoundTrip.DefaultsRoundTrip | src/policy.cyr:331-383 | The printed defaults table takes a fresh parser to exactly these defaults, entries left out included |
| PolicyRoundTrip.RuleRoundTrip | src/policy.cyr:386-442 | A printed rule table appends exactly this rule, whatever was read before, entries left out included |
| PolicyRoundTrip.DecReadsBack | src/policy.cyr:237-253 | Decimal printing is inverted by the integer reader on the whole 32-bit range |
| PolicyRoundTrip.QuotedReadsBack | src/policy.cyr:212-233 | Quoting is inverted by unquoting, and a quoted `#` starts no comment |
| PolicyRoundTrip.FlagEntry | src/policy.cyr:255-263 | For every text: four texts set a flag, any other leaves the record alone, in both tables |
| PolicyRoundTrip.NumberEntry | src/policy.cyr:331-352 | For every text: digits up to the cap set a number, any other text leaves it alone |
| PolicyRoundTrip.TextEntry | src/policy.cyr:212-233 | Unquoting takes one pair of equal quotes off, of either kind, and leaves every other text alone |
| PolicyRoundTrip.OtherKeysIgnored | src/policy.cyr:331-442 | Keys of the other table, and keys of neither, change nothing |
| PolicyParser.ParsePolicyText | src/policy.cyr:455-608 | The byte loops terminate on every buffer, read in bounds, build records shared with nothing, and compute the policy of the parse function |
| PolicyParser.ParseLine | src/policy.cyr:472-606 | One round of the parser: the records change as the line at the cursor says, and the cursor stops at its end |
| PolicyParser.ReadEntry | src/policy.cyr:516-606 | Key, raw value and length of the entry at the cursor, or a line without `=` |
| PolicyParser.ReadHeaderName | src/policy.cyr:483-509 | The trimmed name between single or double brackets, closed or not |
| PolicyParser.ReadValue | src/policy.cyr:536-596 | An array value runs over lines to its bracket, a scalar to the comment or the end of its line |
| PolicyParser.ParseStrArray | src/policy.cyr:265-328 | The array reader terminates on every text, unclosed quotes and stray bytes included, and every item is a slice of it |
| PolicyParser.ParseItems | src/policy.cyr:282-327 | The item loop terminates on every body and collects exactly its items |
| PolicyParser.ReadItem | src/policy.cyr:286-326 | One round pushes at most one item and always advances, by the guard when nothing else does |
| PolicyParser.ScanArray | src/policy.cyr:559-572 | The depth and quote loop finds the closing bracket, or the end of the buffer |
| PolicyParser.ScanScalar | src/policy.cyr:581-594 | The scalar loop finds the first `#` outside double quotes |
| PolicyParser.CopyTrim | src/policy.cyr:187-209 | The copy is the trimmed slice |
| PolicyParser.ParseInt | src/policy.cyr:237-253 | The value of a bounded numeral, -1 for anything else, the empty string included |
| PolicyParser.DefaultsRec.Set | src/policy.cyr:331-383 | The whole record after one defaults entry, an unusable value leaving it alone |
| PolicyParser.RuleRec.Set | src/policy.cyr:386-442 | The whole record after one rule entry |
| PolicyParser.PolicyRec.AssignIn | src/policy.cyr:598-601 | An entry changes the defaults or the last rule and no other record |
| PolicyParser.PolicyRec.EnterSection | src/policy.cyr:500-511 | A rules header appends one fresh default rule and changes nothing else; other headers change only the section |
| PolicyParser.PolicyRec.AddRule | src/policy.cyr:108-129 | The new rule is last, fresh and at its defaults |
| PolicySpec.ItemsAreSlices | src/policy.cyr:265-328 | Every array item is a slice of the text between the brackets |
| PolicySpec.NothingExactly | src/policy.cyr:280-327 | The item loop finds nothing if and only if the body holds no quote |
| PolicySpec.EmptyListExactly | src/policy.cyr:265-328 | A value is read as the empty list if and only if it is not an opening bracket, later a quote and later a closing bracket |
| Text.TrimPadded | src/policy.cyr:187-209 | Trimming undoes any whitespace padding of a text without outer whitespace |
| Text.ParseUint | src/identity.cyr:31-45 | The digit loop gives the decimal value up to 4294967295 and -1 otherwise; it computes in a type that ends there, so no intermediate value passes the cap |
| Text.DecValueOfDec | src/identity.cyr:31-45 | The value of a printed number is the number |
| Text.DecOfExactly | src/identity.cyr:31-45 | Numerals up to 4294967295 read back, larger ones and texts with another byte give -1 |
| Text.FindByte | src/identity.cyr:49-56 | The first occurrence in the range, or its end |
| Fragments.SortStrVec | src/policy.cyr:688-704 | The in-place insertion sort leaves a sorted permutation |
| Fragments.SinkInto | src/policy.cyr:688-704 | The inner loop sinks one element into the sorted part and keeps the names |
| Fragments.StrCompareLex | src/policy.cyr:707-722 | The comparison loop computes the byte-wise lexicographic order |
| Fragments.LexTotalOrder | src/policy.cyr:707-722 | That order is total, antisymmetric and transitive |
| Fragments.LexByFirstDifference | src/policy.cyr:707-722 | And which order it is: a name comes before its continuations, and else the first differing byte decides |
| Fragments.SortedUnique | src/policy.cyr:688-704 | Two sorted permutations of the same names are equal |
| Fragments.LoadFragments | src/policy.cyr:637-685 | The main rules stay a prefix, the accepted fragments' rules follow in sorted order, the defaults stay, and an untrusted directory changes nothing |
| Fragments.LoadOne | src/policy.cyr:654-683 | One directory entry appends its rules if it is an accepted fragment and nothing otherwise |
| Fragments.OneFragment | src/policy.cyr:654-683 | A root-owned, not world-writable, nonempty `.toml` file gives its rules, any other entry none |
| Fragments.FragmentsInOrder | src/policy.cyr:651-684 | Fragments are loaded one after the other in list order |
| Fragments.AppendRules | src/policy.cyr:672-680 | The fragment's rule records are appended in order and stay pairwise distinct from the main ones |
| Fragments.LoadIsDeterministic | src/policy.cyr:637-685 | Every order of the same listing loads the same rules in the same order |
| Fragments.LoadPolicy | src/policy.cyr:612-634 | The loaded policy is one that the main file and its include directory define; an untrusted or empty file loads none |
| Fragments.DefinedByMain | src/policy.cyr:612-634 | The main defaults stay, the main rules come first, and fragments come only from a trusted include directory that the main file names |
| Fragments.LoadedPolicyUnique | src/policy.cyr:612-685 | What they define is one policy, whatever order the directory lists |
| Fragments.FragmentsNeverOverride | docs/examples/fragments/20-ops.toml:2-3 | A request that the main file decides keeps its outcome under every set of fragments |
| Matcher.CommandMatches | src/validate.cyr:111-200 | The byte matcher decides the declarative pattern relation |
| Matcher.MatchesPrefix | src/validate.cyr:123-142 | The branch for `P *` |
| Matcher.MatchesDirectory | src/validate.cyr:152-176 | The last-slash loop decides whether the binary lies directly in the directory |
| Matcher.MatchesBasename | src/validate.cyr:178-200 | The last-slash loop decides whether the pattern is the basename |
| Matcher.ArgumentsIgnored | src/validate.cyr:144-200 | Directory and basename patterns without a space ignore the arguments |
| Matcher.ArgumentWildcardBoundary | src/validate.cyr:123-142 | `P *` matches `P` and `P` followed by a space and anything, and nothing else |
| Matcher.NameMatchesBasename | src/validate.cyr:178-200 | A bare name matches the commands of that name in any directory with any arguments, and no other |
| Matcher.GlobMatchesDirectory | src/validate.cyr:152-176 | A directory glob matches the commands directly in the directory with any arguments, and no other |
| Matcher.DirectlyInByLastSlash | src/validate.cyr:152-176 | A binary lies directly in a directory exactly when its last slash ends that prefix |
| Matcher.BasenameByLastSlash | src/validate.cyr:178-200 | A slash-free pattern is the basename exactly when it is what follows the last slash |
| Matcher.AgreesWithRust | rust-old/src/validate.rs:78-126 | On canonical absolute binaries and canonical directory prefixes the byte matcher and the path matcher agree on every pattern |
| Matcher.AlignedAgree | rust-old/src/validate.rs:78-126 | On an absolute binary whose last piece is a name and whose other pieces do not vanish, or of which one leads upwards, the two agree on every canonical pattern |
| Matcher.AgreeExactly | rust-old/src/validate.rs:78-126 | And on no other absolute binary: the condition is exact |
| Matcher.SolidGlobParts | rust-old/src/validate.rs:105-116 | With an empty or dot piece, the canonical glob of the directory meant is matched by the original and not by the port |
| Matcher.NamelessParts | rust-old/src/validate.rs:118-123 | A last piece that is no name is matched by the port and not by the original |
| Matcher.DoubledSlashParts | src/validate.cyr:238-249 | An input that command resolution lets through: `/b//ls` against `/b/*` |
| Authorization.CheckAuthorization | src/policy.cyr:729-811 | The loop returns the outcome of the first rule that denies or allows, denied when there is none |
| Authorization.RustCheckAuthorization | rust-old/src/policy.rs:413-483 | The original loop returns the outcome of the same specification |
| Authorization.OutcomeUnique | src/policy.cyr:729-811 | Every request has exactly one outcome |
| Authorization.OutcomeByFields | src/policy.cyr:729-811 | On the rules' fields alone: allowed exactly by the first rule that concerns caller and target and lists the command or no commands, unless it denies it, with that rule's settings and the inherited ones; explicitly denied exactly when that rule denies; without a rule exactly when none speaks |
| Authorization.DecidedByAConcernedRule | src/policy.cyr:741-767 | An answer other than no matching rule comes from a policy with a rule for this caller, by name or group, and this target |
| Authorization.SameOutcome | src/policy.cyr:729-811 | Outcomes depend on a matcher only through its answers on the policy's patterns |
| Authorization.PortDecidesLikeOriginal | rust-old/src/policy.rs:413-483 | On canonical commands and directory globs both engines give every request the same outcome under every policy |
| Authorization.EnginesAgreeExactly | rust-old/src/policy.rs:413-483 | For a command with an absolute binary both engines give every request the same outcome under every canonical policy if and only if the paths align |
| Authorization.DenyOnlyDiffers | rust-old/src/policy.rs:413-483 | A pattern that the matchers see differently makes a policy that the engines decide differently |
| Authorization.DoubledSlashPassesDeny | src/policy.cyr:770-776 | The witness: for every caller, group list and target the original denies and the port allows |
| Authorization.MalformedListAllowsAll | docs/development/issues/2026-04-19-mini-toml-parser-limits.md:98-103 | A `commands` entry leaves its rule allowing everything that it does not deny if and only if its value holds no item |
| Authorization.UnclosedListAllowsAll | src/policy.cyr:779-791 | So does every value without a closing bracket |
| Authorization.AppendStability | docs/examples/fragments/20-ops.toml:2-3 | Appended rules never change a decided request, and alone decide an undecided one |
| Authorization.NamelessRuleIsDead | src/policy.cyr:741-767 | Deleting a rule with neither user nor group changes no outcome |
| Authorization.OtherTargetRuleIsDead | src/policy.cyr:763-767 | Deleting a rule for another target changes no outcome |
| Authorization.OtherCallerRuleIsDead | src/policy.cyr:741-761 | Deleting a rule for other users and groups changes no outcome |
| Authorization.PassedRuleIsDead | src/policy.cyr:729-811 | Deleting any rule that passes a request over changes no outcome |
| Authorization.AllowedIsOutcome | src/policy.cyr:729-811 | Being allowed is having an allowed outcome, whatever the defaults |
| Authorization.MoreGroupsKeepAllowed | docs/adr/010-nss-group-dispatch-via-fdlopen.md:69-76 | Without rules that deny by group, an allowed request stays allowed with every larger group list |
| Authorization.DeniesByGroupBreaks | docs/adr/010-nss-group-dispatch-via-fdlopen.md:69-76 | Every rule that denies by group breaks that, with a witness policy built from the rule |
| Authorization.GroupMonotoneExactly | docs/adr/010-nss-group-dispatch-via-fdlopen.md:69-76 | A rule can be put in front of every policy without such rules and keep monotonicity if and only if it does not deny by group |
| Caps.TablesInverse | src/caps.cyr:79-168 | Name to bit and bit to name are inverse on all 41 capabilities, every known name has a bit from 0 to 40, and any other name gives -1 |
| Caps.NumberedLikeTheKernel | src/caps.cyr:30-73 | Every capability has the number that the kernel gives its name, and there are 41 |
| Caps.ParseSet | src/caps.cyr:176-187 | The mask holds exactly the named bits; -1 exactly when some name is unknown |
| Caps.MaskDependsOnSet | src/caps.cyr:176-187 | The result depends only on the set of names |
| Caps.WordsRestoreMask | src/caps.cyr:192-193 | The low and high words restore the mask |
| Caps.Describe | src/caps.cyr:283-297 | The text is the names of the set bits in order, joined by commas, or ALL |
| Caps.NamesInOrder | src/caps.cyr:283-297 | The names come in the order of their numbers |
| Caps.DescriptionReadsBack | src/caps.cyr:283-297 | Splitting the description of a nonzero mask at its commas and folding the names gives the mask again |
| Credentials.BoundingDropComplement | src/caps.cyr:249-258 | On a kernel that behaves the loop succeeds exactly when every capability the kernel lacks is in the mask, and then the bounding set is cut down to the mask |
| Credentials.CapSetMask | src/caps.cyr:208-226 | The six words ask for permitted, effective and inheritable equal to the mask's set |
| Credentials.AmbientRaiseSet | src/caps.cyr:266-275 | With the set permitted and inheritable the ambient set gains exactly the mask's set; nothing else ever changes |
| Credentials.CapGetEffective | src/caps.cyr:231-242 | The two words of a trusted read are the effective set as a mask; -1 when the call fails |
| Credentials.ObservedIsMask | src/caps.cyr:231-242 | That mask equals the requested one exactly when the effective set is the requested set |
| Credentials.WordsOfMask | src/caps.cyr:192-226 | The two words denote the mask's set |
| Credentials.NamesGiveTheirNumbers | src/caps.cyr:176-226 | The set of a name list holds exactly the kernel numbers of its names |
| Credentials.NumbersOfTheDrop | src/caps.cyr:79-121 | The capabilities that the drop itself needs are the named ones |
| Credentials.Process.Call | src/main.cyr:341-361 | A system call behaves, fails, or claims success with no effect, as the script says |
| PrivilegeDrop.DropPrivileges | src/main.cyr:311-383 | With any credential change free to fail or lie, success means the observed uid, gid and (for a nonzero mask) effective set are the targets; when none lies, success means the target's groups and, from root with full sets, exactly the specified credentials in every field; when all behave it succeeds if and only if no capability list is given or the kernel knows the whole table |
| PrivilegeDrop.CapSetRefused | src/caps.cyr:208-226 | On an older kernel a mask that passes the bounding drop asks capset for a capability out of reach |
| PrivilegeDrop.TakeCapabilities | src/main.cyr:363-381 | The second half succeeds only with the effective set equal to the mask's set, and when no call lies only if capset was granted and every capability raised |
| PrivilegeDrop.ExactCapabilities | docs/adr/007-capability-based-privilege.md:57-88 | All five sets equal the mask's set after the drop (the bounding set up to capabilities beyond the table), and after execve the process has exactly the mask's set if and only if the target is not root or the kernel has no capability beyond the table |
| PrivilegeDrop.FullUserDrop | src/main.cyr:311-383 | Without a capability list a non-root target ends with no capability and a root target with all, and either with the target's ids and groups |
| PrivilegeDrop.UserChangeFirstLosesEverything | docs/adr/007-capability-based-privilege.md:57-88 | Had the user been changed first, neither capset nor the bounding drop could work: the order is needed |
| Lsm.ApplyExec | src/lsm.cyr:85-107 | Success exactly when nothing was requested, or something requested was staged with an active module, in that module's attribute, and nothing broke; nothing unrequested is written; a willing kernel is enough |
| Lsm.LsmNodes.TrySelinux | src/lsm.cyr:92-98 | A requested context is staged in the SELinux attribute when its module answers active, skipped when not, and broken with nothing staged when staging fails |
| Lsm.LsmNodes.TryApparmor | src/lsm.cyr:99-104 | The same for a profile, which goes to the shared attribute only after its own could not be opened |
| Lsm.LsmNodes.SetSelinuxExec | src/lsm.cyr:38-47 | A context is written whole to the SELinux attribute while the module is active, or the call fails with nothing written |
| Lsm.LsmNodes.SetApparmorExec | src/lsm.cyr:53-71 | A profile is written whole to its own attribute, or to the shared one after its own could not be opened, or the call fails with nothing written |
| Relay.SessionRelay | src/session.cyr:202-289 | For every trace: one chunk of input is read for every poll that reports one, up to the end of the input, and the master once for every poll that reports output; without a write error, stdout and the transcript are the bytes read from the master, the master gets the bytes read from stdin, and the keystroke log is exactly the chunks seen with echo on; it goes on until poll fails, the child hangs up or the master ends, and when poll reports buffered data a normal end leaves nothing unread |
| Relay.PumpMaster | src/session.cyr:246-268 | Copying keeps conservation, and a hangup drains the master to its end |
| Relay.PumpStdin | src/session.cyr:269-287 | One chunk is consumed and copied, conservation is kept, and stdin stays open exactly when the chunk was not empty |
| Relay.ServeStdin | src/session.cyr:269-287 | The input half of a round keeps the count of chunks read equal to the polls that reported input, up to the end of the input |
| Relay.ServePoll | src/session.cyr:231-287 | One round after a successful poll keeps everything that the loop promises |
| Relay.RecordedByEcho | src/session.cyr:276-284 | Of a chunk all is recorded when echo was on, and nothing when it was off |
| Relay.FullWrite | src/session.cyr:127-135 | What goes out is a prefix, whole exactly when the answer is 0, however short the writes are |
| Password.ReadPasswordInto | src/main.cyr:86-127 | The buffer then holds the first line, cut at a NUL, the end of input or capacity minus one, and nothing outside the buffer is written |
| Password.FillLine | src/main.cyr:86-127 | The one-byte reads fill the zeroed buffer with the typed bytes and use up the line |
| Password.PromptAndAuthenticate | src/main.cyr:137-163 | The questions asked and the answer are those of the input and the backend's results, and the buffer is zero at every return |
| Password.LineIsWhatWasTyped | src/main.cyr:86-127 | For every input: a password is what is typed up to the newline, a failed read or the end, cut at a NUL and at 1023 bytes, and the next one starts behind it |
| Password.ThreeChances | src/main.cyr:137-163 | The questions are the nonempty ones of the first three lines, up to the first accepted, and all of them when none is |
| Password.PromptLimits | src/main.cyr:137-163 | At most three questions, never about an empty password, and success exactly when the last was answered with 1 |
| Timestamp.ValidateUsername | src/validate.cyr:13-37 | Accepts exactly the names that can be one path component, with the right error for the rest |
| Timestamp.TtySession | src/timestamp.cyr:58-85 | The session name is the slash-free name of the terminal under /dev, or empty |
| Timestamp.TerminalsApart | src/timestamp.cyr:58-85 | Two terminals share a session name exactly when their names differ at most in slashes and dashes; what is not under /dev has none |
| Timestamp.TimestampPath | src/timestamp.cyr:90-109 | The buffer holds the path of this user and session |
| Timestamp.PathInjective | src/timestamp.cyr:90-109 | On colon-free users two paths are equal exactly when user and session are |
| Timestamp.ColonUsersCollide | src/timestamp.cyr:90-109 | With a colon in a user name two users share a file |
| Timestamp.PathStaysInside | src/timestamp.cyr:58-109 | What follows the directory is one usable file name: the user, and the session behind a colon if there is one |
| Timestamp.CurrentIsFresh | src/timestamp.cyr:149-169 | With a non-decreasing clock the latest entry decides freshness as the whole history does |
| Timestamp.LastWordDecides | src/timestamp.cyr:149-210 | After an update a credential is fresh for less than ttl seconds, after an invalidation it is not, whatever happens to other users and sessions |
| Timestamp.CredentialCache.Check | src/timestamp.cyr:149-169 | The refinement: after any interleaving of operations, true exactly when this user was updated on this session less than ttl seconds ago with no later invalidation; in any directory, only a root-owned regular file of that age counts |
| Timestamp.CredentialCache.Update | src/timestamp.cyr:175-189 | Success records exactly this user, session and time; failure changes no record and no file; a link in the file's place is refused |
| Timestamp.CredentialCache.Invalidate | src/timestamp.cyr:195-210 | Success forgets exactly this user and session, also when nothing was there; a link in the file's place is refused |
| Timestamp.CredentialCache.EnsureDir | src/timestamp.cyr:116-141 | Success exactly when the directory is then a root-owned real directory that is not world-writable; a missing one is made, an existing one is never changed, and each fault has its own error |
| Passwd.IdentityLookupUid | src/identity.cyr:62-103 | The line loop computes the lookup, malformed lines included |
| Passwd.IdentityLookupUser | src/identity.cyr:108-141 | The line loop computes the lookup by name; the empty name is never found |
| Passwd.ReadUidLine | src/identity.cyr:70-98 | What one line says about a user id, every malformed shape included |
| Passwd.UidLineByFields | src/identity.cyr:70-98 | By its colon-separated fields: a line needs four, the third the id, the fourth a number and a name; a bad fourth ends the search |
| Passwd.UidByLines | src/identity.cyr:62-103 | The first line that does not skip the id decides |
| Passwd.ReadUserLine | src/identity.cyr:122-137 | What the rest of a matching line says |
| Passwd.UserLineByFields | src/identity.cyr:122-137 | By its fields: the rest of a line needs three, the second and third numbers |
| Passwd.UserByLines | src/identity.cyr:108-141 | The first line whose first field is the name decides, well formed or not |
| Passwd.FindFieldIn | src/api.cyr:131-221 | The field of the first line that starts with the name and a colon |
| Passwd.TargetHome | src/api.cyr:131-182 | Field six of the first line that starts with the name and a colon, with the fallbacks of the code |
| Passwd.TargetShell | src/api.cyr:184-221 | Field seven of that line, up to the end of the line |
| Passwd.ReadersAgree | src/identity.cyr:62-141 | One table, four readers: on a rendered table all four return the same record's fields |
| Passwd.LookupsInverse | src/identity.cyr:62-141 | Lookup by id and by name undo each other for every id and name, so no prefix or suffix matches |
| Passwd.FieldLookups | src/api.cyr:131-221 | The field readers find exactly the named record, and nothing for a name that is not in the table |
| Passwd.Fallbacks | src/api.cyr:131-221 | A name that the table does not have gets the default home and shell |
| Passwd.FoundNamesHaveNoColon | src/identity.cyr:70-98 | Whatever the file holds, a name found by id is not empty and has no colon |
| Environment.ReadEnviron | src/env.cyr:149-175 | The doubling buffer returns exactly what was delivered, in any chunking, and everything when no read fails |
| Environment.ParseEnviron | src/env.cyr:180-209 | The entries between NULs, in order, without the empty ones |
| Environment.EntriesReadBack | src/env.cyr:180-209 | Splitting undoes the kernel's encoding, with or without a last NUL; empty entries are dropped and nothing else is |
| Environment.SanitizeEnvironment | src/env.cyr:267-301 | The eight fixed entries, then the entries that pass, for every stream and every keep list |
| Environment.KeptExactly | src/env.cyr:283-298 | What passes is exactly the entries KEY=VAL whose key is not unsafe and is safe or kept |
| Environment.FiltersLikeOriginal | rust-old/src/env.rs:9-81 | Unsafe are the original's variables, everything that starts with `LD_` and exported shell functions; safe are the original's |
| Environment.KeptInOrder | src/env.cyr:283-298 | The filter works entry by entry and keeps order and multiplicity |
| Environment.FixedValuesWin | src/env.cyr:267-301 | First-occurrence lookup of each fixed variable gives the fixed value whatever passes the filter |
| Environment.TargetSees | src/env.cyr:267-280 | By name: the target's user, home and shell, the secure path, and the caller's name and ids |
| ExecGate.JoinCommand | src/api.cyr:101-117 | The words joined by single spaces |
| ExecGate.WordsReadBack | src/api.cyr:101-117 | Words without spaces can be read off the command that the policy is asked about |
| ExecGate.FirstWordIsBinary | src/api.cyr:260-262 | The binary that the matcher sees is the resolved path |
| ExecGate.AuthorizeCommand | src/api.cyr:236-287 | Authorized exactly when the words left in argv, with the resolved path written in place of the first, are granted, and with that grant's settings |
| ExecGate.EvaluateWithPolicy | src/api.cyr:236-315 | Also: the cache answer, the failure of the non-interactive mode and the environment built |
| ExecGate.BuildEnvironment | src/api.cyr:307-312 | The environment is the fixed entries of this caller and this target's home and shell, then what the filter keeps: of the caller's whole environment when no read fails |
| ExecGate.DropAndExec | src/main.cyr:388-413 | Nothing is executed unless the drop and the staging worked, and when no call lies only with the exact credentials; when every call behaves, the kernel can do the drop and the modules are willing or not needed, the execve happens |
| ExecGate.Authenticate | src/main.cyr:692-710 | Goes on exactly when authentication is waived, cached or passed now; nobody is asked otherwise; a passed prompt refreshes the cache when it takes an entry, and nothing else changes it |
| ExecGate.OpenLogs | src/main.cyr:726-756 | Goes on exactly when every transcript the grant asks for could be opened, and else leaves a refusal |
| ExecGate.Launch | src/main.cyr:758-797 | The grant is audited before anything else; then one execve, in the child when a PTY is used, or none |
| ExecGate.LaunchedIsKept | src/main.cyr:758-797 | A launch that reached execve kept everything the grant asks |
| ExecGate.RunAuthenticated | src/main.cyr:711-797 | From the authenticated caller on: one gated execve or none, and one when nothing refuses |
| ExecGate.RunGranted | src/main.cyr:680-797 | The same from the grant on; an unknown capability and a failed prompt each leave their refusal and nothing else, and a passed prompt is remembered |
| ExecGate.OnePolicy | src/policy.cyr:612-685 | The policy file and its fragments define one policy, the one that the gate speaks of |
| ExecGate.ShkRun | src/main.cyr:573-798 | The exec gate over every run, from the bytes of the policy file on, with exact credentials when no call lies; its converse for a run that nothing refuses, requested security contexts included; the single refusal record of a refused command; that a passed prompt is remembered and an invalidation forgets, and reports success exactly then; and that the other modes leave no trace |
| ExecGate.EndIsGated | src/main.cyr:573-798 | A granted run's execve went through all the gates, and it is the only one |
| ExecGate.RefusedCompletes | src/main.cyr:659-680 | A command that the policy in force refuses is wanted under no policy |
| ExecGate.EndCompletes | src/main.cyr:573-798 | A wanted command that nothing refuses ends in its execve with exactly the dropped credentials |
| ExecGate.EndRemembers | src/main.cyr:684-710 | What the evaluation's grant leaves in the record and the cache is what the policy's does |
| ExecGate.FailedCompletes | src/main.cyr:698-705 | After a failed prompt there is nothing to carry out |
| ExecGate.ExecSeesFixedValues | src/env.cyr:267-301 | An executed program finds the fixed value of each fixed variable, whatever the caller exports |

## Left out

- Password verification: `src/auth.cyr` is a script of results (1 accepts), and terminal echo and signal masks around the prompt are not modelled.
- `resolve_command` and `validate_command` (`src/validate.cyr:44-96`, `src/validate.cyr:205-287`): their outcomes are parameters of the run (`Host.resolved`, `Host.commandValid`).
- Group lookup, supplementary group lookup and NSS dispatch (`src/identity.cyr:144-427`): the lists are parameters, so every list is covered.
- Command line parsing, usage text, `--list`, `--check`, linting and error messages: they decide nothing that is proved here.
- Audit text, locking and failures to write the audit log: an audit record is one event, and the NSS outcome record is left out.
- Ownership and mode checks on policy files, fragments, the include directory and the transcript directory: one boolean each.
- Foreign files in the cache directory: the refinement starts from a directory without any; what the operations do when they meet one is stated per operation.
- PTY set-up, raw mode, window sizes and the parent's wait: `Host.ptyReady` and `Host.childReady` stand for them, and the relay is proved on its own, not as part of a run.
- Relay.SessionRelay: conservation is stated for traces without a write error, because the code ignores the results of its writes; `Relay.FullWrite` says what one write does when errors occur.
- Credentials.CapGetEffective: a capget(2) that claims success without filling its words is not modelled; like getuid(2) and getgid(2) it may fail but is otherwise trusted.
- Passwd.IdentityLookupUid: takes what was read from the file; that the code reads at most 65536 bytes of it is not modelled.
- Read limits of policy and fragment files: a file's content is what reading it returned.
- Securebits other than keep-capabilities, no_new_privs, and execve of set-user-ID files or files with capabilities: outside the credential model, as in "an ordinary file".
- Allocation failure, descriptor closing, and aliasing between heap strings: allocation succeeds, and strings are values.
