# imapcp synchronisation core, in Dafny

`imapcp` copies the folders and messages of one IMAP account into another. It
reads the source only, recreates every source folder on the destination under
that server's naming convention, and appends every source message whose
Message-ID the destination folder does not already hold.

This project models the program's core:

- the server dialect detection from the greeting (`__getServerType`);
- the folder name translation between dialects (`__translateFolderName`);
- the parsing of the LIST reply (`__listMailboxes`);
- the SEARCH and FETCH wrappers (`__listMessages`, `__getMessageId`,
  `__getMessage`);
- the synchronisation loop of `main.run`, from the dialect detection to the end
  of the loop over folders.

The two connections are objects of an abstract session class. It keeps the
server's mailboxes, the selected mailbox, and a ghost log of every command that
names a mailbox (CREATE, SELECT/EXAMINE, APPEND). Everything that happens in a
run is proved in three layers. Each layer is stated against the one below it.

- `Sync` holds the program's procedures as methods over the two sessions, with
  their loops (the exclusion scan, the `dstmexids` loop, the copy loop and the
  folder loop). Each method's postcondition ties its outcome, the destination
  store and both logs to a function of `SyncSpec`.
- `SyncSpec` states a whole run as functions of the two servers' states.
  `SyncFolder` is one pass of the loop body, `SyncFolders` is the loop, which
  stops at the first folder that aborts, and `RunSpec` is the run.
- `SyncProps` proves about those functions what the program is for:
  - the deduplication rule (counts, membership, order, number of appends);
  - each folder's fate (excluded, skipped as special, synced, aborted);
  - what a folder pass and a run may and may not do to each server;
  - that a second run over what the first one left copies nothing and changes
    nothing.

The other modules:

- `Dialect`: detection of the server type.
- `FolderName`: translation of folder names. A per-character reference
  definition serves as the partner of the chained `replace` calls.
- `Listing`: an exact model of the LIST regular expression, greedy
  backtracking included.
- `Text`: whitespace splitting, decimal numerals, substring search and ASCII
  case folding.
- `Server`: the session class and the replies of the commands.

Some behaviour of the code is not what a reader might expect. The model
follows the code:

- A CREATE of a mailbox that already exists is ignored. The folder is then
  synced into the existing mailbox, not skipped.
- A source SELECT that fails for another reason than the Exchange special
  mailbox is not checked at once. The code goes on to select the destination
  folder and snapshot it. The run aborts only at the source SEARCH, which fails
  because nothing is selected. The destination SELECT is not checked either.
- A message without a Message-ID is not always copied. `mid in dstmexids`
  compares `None` with `None`, so such a message is skipped when the
  destination folder already holds a message without one
  (`SyncProps.MissingIdCopiedOnlyIntoFolderWithoutOne`).
- Dialect detection is not a bare substring test. `^.*Microsoft Exchange.*$`
  matches only a greeting whose only newline, if any, is its last character
  (`Dialect.MultiLineGreetingIsUnknown`).
- An excluded folder can still have its translated name created and filled.
  This happens when that name is also the translation of a folder that is not
  excluded. The model proves that every destination command names the
  translation of some folder that is not excluded
  (`SyncProps.SyncFoldersCommands`).
- Exchange to Exchange translation is not the identity. Every `.` becomes a
  space and `/` stays (`FolderName.ExchangeToExchange`).
- A skipped special mailbox's destination keeps what CREATE left: empty if
  CREATE made it, its old messages if it already existed.
- The status of APPEND is not checked (imapcp.py:149). A message the
  destination refuses is lost for this run without an error. The model's
  server never refuses an APPEND into an existing mailbox (see "Left out").
- A mailbox name that starts with whitespace is misread. The greedy
  delimiter group runs on to the quote that opens the name, so the line
  `() "/" " x"` gives the delimiter `/" ` and the name `x`
  (`Listing.LeadingSpaceNameMisread`). Names without that quirk parse as
  written (`Listing.ParseFormatted`).

## Model

| member | source | states |
|---|---|---|
| `Dialect.ServerTypeOf` | imapcp.py:210-221 | the detected type: the tag of the first rule, in the dictionary's scan order, whose pattern matches the greeting, and Unknown when none does |
| `Dialect.ServerTypeOfCases` | imapcp.py:210-221 | the type is Unknown exactly when neither pattern matches; only the Exchange pattern gives Exchange, only the imapfront pattern gives Dovecot; when both match, the first in the table's scan order wins |
| `Dialect.OneLineGreeting` | imapcp.py:214-219 | on a one-line greeting, the type is Unknown exactly when neither "Microsoft Exchange" nor "imapfront" occurs, ignoring ASCII case |
| `Dialect.MultiLineGreetingIsUnknown` | imapcp.py:215-219 | a greeting with a newline before its last character is Unknown, whatever it mentions, because `.` does not cross a newline and `$` only matches at a final newline |
| `Dialect.FirstMatch` | imapcp.py:218-221 | the result is the tag of the first matching rule, with no earlier rule matching, or Unknown when no rule matches |
| `Text.ReplaceAt` | imapcp.py:228 | `str.replace` of one character by another is positionwise: each occurrence of the first becomes the second and every other character stays |
| `FolderName.ToCanonical` | imapcp.py:226-232 | stage one: an Exchange name has every `.` replaced by a space, then every `/` by `.`; a name from any other server is kept |
| `FolderName.FromCanonical` | imapcp.py:234-240 | stage two: for Exchange, every `/` is replaced by a space, then every `.` by `/`; for any other server the name is kept |
| `FolderName.Translate` | imapcp.py:223-242 | translation is stage two applied to the result of stage one |
| `FolderName.TranslateShape` | imapcp.py:223-242 | translation keeps the length, and is the identity when neither side is Exchange |
| `FolderName.ToCanonicalAt` | imapcp.py:226-232 | stage one agrees at every position with the per-character table: Exchange turns `.` into a space and `/` into `.` |
| `FolderName.FromCanonicalAt` | imapcp.py:234-240 | stage two agrees at every position with the per-character table: Exchange turns `/` into a space and `.` into `/` |
| `FolderName.TranslateAt` | imapcp.py:223-242 | the two chained stages agree with the composition of the two per-character tables at every position |
| `FolderName.TranslateKeepsOtherChars` | imapcp.py:227-236 | every character other than `.` and `/` stays at its position |
| `FolderName.CanonicalOfExchangeHasNoSlash` | imapcp.py:228 | an Exchange name leaves no `/` in the dot-separated form |
| `FolderName.ExchangeNameHasNoDot` | imapcp.py:236 | a name produced for Exchange holds no `.` |
| `FolderName.ExchangeToExchange` | imapcp.py:227-236 | Exchange to Exchange replaces every `.` by a space and keeps `/` |
| `FolderName.RoundTripThroughExchange` | imapcp.py:223-242 | a name without `/` translated to Exchange and back is unchanged |
| `FolderName.RoundTripFromExchange` | imapcp.py:223-242 | an Exchange name without `.` translated to another dialect and back is unchanged |
| `FolderName.RoundTripLosesSlash` | imapcp.py:223-242 | "a/b" from Dovecot to Exchange and back becomes "a b" |
| `Listing.LastMatch` | imapcp.py:165-168 | the search returns the greediest pair of group ends at which the pattern matches, or none when no pair matches |
| `Listing.ParseLine` | imapcp.py:165-171 | `list_re.match(line)`: the three groups of the match the backtracking search finds first, or none |
| `Listing.ParseLineIsGreedyMatch` | imapcp.py:165-171 | a line is rejected exactly when the pattern cannot match it; otherwise the groups are those of the greedy match, and the mailbox name holds no `"` |
| `Listing.ParseFormatted` | imapcp.py:165-171 | a line `(F) "D" "N"` gives the flags F, the delimiter D and the name N, when F and D hold no newline, D and N hold no `"`, and N does not start with whitespace |
| `Listing.LeadingSpaceNameMisread` | imapcp.py:165-171 | the line `() "/" " x"` gives the delimiter `/" ` and the name `x`: a name that starts with a space is misread |
| `Listing.ParseListing` | imapcp.py:162-177 | a non-OK status fails with that status; otherwise the result succeeds exactly when every line matches, has one record per line in order, and otherwise fails on the first line that does not match |
| `Server.CreateResult` | imapcp.py:117 | CREATE adds the mailbox, empty, when it is missing, and changes no existing mailbox |
| `Server.SelectReply` | imapcp.py:120 | SELECT succeeds exactly when the server does not refuse the mailbox and the mailbox exists |
| `Server.SearchReply` | imapcp.py:185 | SEARCH ALL on the selected mailbox answers OK with its sequence numbers 1 to n joined by spaces, and NO when nothing is selected |
| `Server.Addressed` | imapcp.py:195-205 | a FETCH identifier addresses the message at that sequence number of the selected mailbox, and nothing when it is not a number from 1 to the mailbox's size |
| `Server.HeaderReply` | imapcp.py:195-199 | the header FETCH answers OK with the addressed message's Message-ID, and NO when nothing is addressed |
| `Server.FullReply` | imapcp.py:205-208 | the RFC 822 FETCH answers OK with the whole addressed message, and NO when nothing is addressed |
| `Server.AddressedBySeqNumber` | imapcp.py:142-148 | the k-th identifier SEARCH returns addresses the k-th message of the selected mailbox |
| `Server.SearchSplitsToSeqNumbers` | imapcp.py:185-188 | the SEARCH payload splits on whitespace into exactly the sequence numbers 1 to n |
| `Text.SplitJoin` | imapcp.py:188 | `split()` of non-empty, whitespace-free tokens joined by spaces gives back the tokens |
| `Text.ContainsOccurs` | imapcp.py:121 | `pat in text` holds exactly when `pat` occurs at some position of `text` |
| `Server.Session.List` | imapcp.py:162 | LIST answers with the server's fixed status and lines |
| `Server.Session.Create` | imapcp.py:117 | the store becomes `CreateResult` of the old store, and CREATE is logged |
| `Server.Session.Select` | imapcp.py:119-124 | the reply is `SelectReply`; a failed selection leaves nothing selected; the command is logged with its read-only flag |
| `Server.Session.Search` | imapcp.py:185 | the reply lists the selected mailbox's sequence numbers, or fails when nothing is selected |
| `Server.Session.FetchHeader` | imapcp.py:195-199 | the reply carries the addressed message's Message-ID, or fails |
| `Server.Session.FetchFull` | imapcp.py:205-208 | the reply carries the whole addressed message, or fails |
| `Server.Session.Append` | imapcp.py:149 | the message is added at the end of an existing mailbox, and nothing else changes |
| `Sync.ListMailboxes` | imapcp.py:157-177 | the loop that builds `folders` returns exactly `ParseListing` of the LIST reply |
| `Sync.ListMessages` | imapcp.py:179-189 | a non-OK SEARCH fails with its status; otherwise the result is the whitespace-split payload, which is the sequence numbers of the selected mailbox |
| `Sync.GetMessageId` | imapcp.py:191-199 | a failed fetch fails; otherwise the result is the addressed message's Message-ID |
| `Sync.GetMessage` | imapcp.py:201-208 | a failed fetch fails; otherwise the result is the whole addressed message |
| `Sync.CollectMessageIds` | imapcp.py:130-135 | the loop succeeds exactly when every identifier addresses a message, and then returns their Message-IDs in order |
| `Sync.CheckExcluded` | imapcp.py:104-112 | `skip` is set exactly when some exclusion pattern matches the start of the name |
| `Sync.SnapshotIds` | imapcp.py:124-135 | the destination folder is selected read-write; the snapshot succeeds exactly when that SELECT does, and is then the folder's Message-IDs in order |
| `Sync.CopyMissing` | imapcp.py:141-151 | the copy loop appends to the destination folder exactly `ToCopy` of the source messages against the snapshot, in source order, and changes no other mailbox |
| `Sync.CopyOne` | imapcp.py:124-151 | the snapshot, the source listing and the copy end as `CopyFolder` says |
| `Sync.PassOne` | imapcp.py:114-151 | CREATE, the read-only source SELECT, the special-mailbox skip and the copy end as `PassFolder` says |
| `Sync.SyncOne` | imapcp.py:100-151 | one pass of the loop body ends as `SyncFolder` says: result, destination store and both logs |
| `Sync.SyncAll` | imapcp.py:97-151 | the folder loop ends as `SyncFolders` says, failing with the error of the first folder that aborts |
| `Sync.Run` | imapcp.py:81-151 | the run ends as `RunSpec` says, and the source's mailboxes are unchanged |
| `SyncSpec.IsExcluded` | imapcp.py:104-108 | a folder is excluded when some exclusion pattern matches at the start of its name |
| `SyncSpec.IsSpecialRefusal` | imapcp.py:121 | the source SELECT is the special refusal when it answered NO, the source is Exchange, and the text contains "special mailbox" |
| `SyncSpec.ToCopy` | imapcp.py:142-149 | the source messages, in order, whose Message-ID is not in the snapshot taken before copying |
| `SyncSpec.SyncFolder` | imapcp.py:100-112 | an excluded folder is Excluded with no command; any other folder gets the pass into its translated name |
| `SyncSpec.PassFolder` | imapcp.py:114-124 | CREATE of the destination, whatever its answer, and the read-only source SELECT; on the special refusal the folder is skipped, otherwise the copy stage follows |
| `SyncSpec.CopyFolder` | imapcp.py:124-151 | the read-write destination SELECT; unless both folders are selected the run aborts at the next SEARCH, otherwise the missing messages are appended in source order |
| `SyncSpec.SyncFolders` | imapcp.py:97-151 | the loop over the source folders in listing order, ending at the first folder that aborts |
| `SyncSpec.RunSpec` | imapcp.py:81-98 | server type detection on both greetings, both listings, either of which may fail the run, and then the loop over the source folders |
| `SyncSpec.StoppedIsFinal` | imapcp.py:98-151 | once a folder aborts, the remaining folders are not processed |
| `SyncProps.ToCopyCounts` | imapcp.py:142-151 | a message is copied as many times as it occurs in the source when its Message-ID is missing from the snapshot, and never otherwise |
| `SyncProps.ToCopyMembers` | imapcp.py:145-149 | a message is appended if and only if it is a source message whose Message-ID the snapshot lacks |
| `SyncProps.ToCopyConcat` | imapcp.py:142-151 | copies keep source order: the rule distributes over concatenation of the source |
| `SyncProps.ToCopyCount` | imapcp.py:132-151 | the number of appends is the number of source positions whose Message-ID the snapshot lacks, since the snapshot is not updated while copying |
| `SyncProps.ToCopyNothingMissing` | imapcp.py:145-151 | nothing is copied when every source Message-ID is in the snapshot |
| `SyncProps.ToCopyCovers` | imapcp.py:142-149 | after the copy, every source Message-ID is in the destination folder |
| `SyncProps.ToCopyIdempotent` | imapcp.py:142-151 | copying again against the folder the copy left copies nothing |
| `SyncProps.MissingIdCopiedOnlyIntoFolderWithoutOne` | imapcp.py:145 | a message without a Message-ID is copied exactly when the destination folder holds no message without one |
| `SyncProps.DedupExample` | imapcp.py:142-151 | with A and B in the destination and A and C in the source, only C is copied |
| `SyncProps.NonexistentIsNotSpecial` | imapcp.py:121 | the refusal of a missing mailbox does not contain "special mailbox" |
| `SyncProps.SpecialRefusalCases` | imapcp.py:120-121 | the skip condition holds exactly for an Exchange source that refuses the folder with a text containing "special mailbox" |
| `SyncProps.SyncFolderExcluded` | imapcp.py:104-112 | a folder is Excluded exactly when a pattern matches it, and then issues no command and changes nothing |
| `SyncProps.SyncFolderSkipped` | imapcp.py:117-123 | a folder is skipped as special exactly when it is not excluded and meets the special refusal; then only CREATE and the source SELECT were issued |
| `SyncProps.CopyFolderCases` | imapcp.py:124-151 | the copy stage is Synced exactly when the destination SELECT succeeds and the source folder was selected; then it appends the missing messages, and otherwise it aborts after the destination SELECT |
| `SyncProps.PassFolderDecision` | imapcp.py:117-151 | past the skip, a pass is Synced exactly when both SELECTs succeed, and otherwise aborts after CREATE and the destination SELECT |
| `SyncProps.SyncFolderCopyDecision` | imapcp.py:100-151 | a folder past the exclusion and the skip is Synced exactly when both SELECTs succeed; otherwise the run aborts there |
| `SyncProps.PassFolderCopies` | imapcp.py:117-151 | a synced pass issues CREATE, the destination SELECT and one APPEND per missing message, in source order |
| `SyncProps.SyncFolderCopies` | imapcp.py:114-151 | a synced folder gains exactly the missing messages, after CREATE and the destination SELECT |
| `SyncProps.SyncFolderGrows` | imapcp.py:117-149 | a pass only adds mailboxes and only appends to them |
| `SyncProps.SyncFolderDecisionIndependent` | imapcp.py:117-124 | a folder's result and its source commands do not depend on the destination's contents |
| `SyncProps.PassFolderNames` | imapcp.py:117-149 | the commands of a pass name only its source folder, opened read-only, and its destination folder |
| `SyncProps.SyncFolderNames` | imapcp.py:100-149 | the source commands of a pass are a read-only SELECT of that folder, and its destination commands name its translation; an excluded folder issues none |
| `SyncProps.SyncFoldersLength` | imapcp.py:98 | the run processes a prefix of the listing, all of it unless a folder aborted |
| `SyncProps.SyncFoldersResults` | imapcp.py:98-151 | only the last processed folder can have aborted |
| `SyncProps.SyncFoldersExclusions` | imapcp.py:104-112 | each processed folder is Excluded exactly when a pattern matches its name |
| `SyncProps.SyncFoldersGrows` | imapcp.py:117-149 | the destination only gains mailboxes and messages, and keeps its old messages at the front |
| `SyncProps.SyncFoldersCommands` | imapcp.py:98-151 | the source is only ever opened read-only, and only on listed folders that are not excluded; every destination command names the translation of such a folder |
| `SyncProps.RunSpecOutcome` | imapcp.py:90-151 | a run fails exactly when a listing fails or a folder aborts; a failed listing changes nothing; a run that is done processed every listed folder |
| `SyncProps.SettledAfterPass` | imapcp.py:142-151 | after its pass, a folder is settled: its destination exists and, if it is copied, holds every source Message-ID |
| `SyncProps.SettledPassChangesNothing` | imapcp.py:117-151 | the pass of a settled folder leaves the store as it is and appends nothing |
| `SyncProps.SyncFoldersDecisionIndependent` | imapcp.py:98-124 | the results and the source commands of a run do not depend on the destination's contents |
| `SyncProps.ProcessedFoldersSettled` | imapcp.py:98-151 | after a run, every folder it processed is settled in the destination it left |
| `SyncProps.RerunFromSettled` | imapcp.py:98-151 | a loop over a destination where the first run's folders are settled changes nothing and appends nothing |
| `SyncProps.RerunChangesNothing` | imapcp.py:98-151 | a second loop over what the first left takes the same decisions, issues the same source commands, changes nothing and appends nothing |
| `SyncProps.RunSpecIdempotent` | imapcp.py:7-8 | a second run against the destination the first run left has the same outcome, leaves it unchanged and appends no message |

`SyncSpec.ToCopySnoc`, `SyncSpec.SyncFoldersStep`, `SyncSpec.SyncFolderUnexcluded`,
`SyncSpec.PassFolderUnskipped`, `SyncSpec.RunSpecUnlisted`,
`SyncSpec.RunSpecListed`, `SyncSpec.ExtendLogs`, `Listing.FormattedLayout`,
`Listing.GreediestOfLayout`, `Listing.ParseOfLayout` and `Listing.ParsePieces` are proof steps: each
unfolds one case of a definition, or one layout of a line, for the proofs
above.

## Left out

- Server.Session.Append: the model's server accepts every APPEND into an existing mailbox. A real server can refuse one (a size or quota limit), and the program ignores the status (imapcp.py:149), so the message is lost and tried again on every later run. `Sync.CopyMissing`, `SyncProps.PassFolderCopies`, `SyncProps.SyncFolderCopies`, `SyncProps.SettledAfterPass`, `SyncProps.ProcessedFoldersSettled`, `SyncProps.RerunChangesNothing` and `SyncProps.RunSpecIdempotent` hold only because that refusal cannot happen.
- Server.Session.Create: the model's server refuses CREATE only of a name that exists. A real server can refuse a new name it does not accept; the program ignores the status (imapcp.py:117) and then aborts at the destination SEARCH, unless the source folder is then skipped as a special mailbox. `SyncProps.SettledAfterPass`, `SyncProps.ProcessedFoldersSettled`, `SyncProps.PassFolderDecision`, `SyncProps.SyncFolderCopyDecision` and `SyncProps.RunSpecIdempotent` rely on every new name being created.

- Connections, login and logout (imapcp.py:78-86, 153-155) are network I/O. The two sessions are parameters of `Sync.Run`, already authenticated and in the state the model's session class holds.
- The command line is not modelled: option parsing, the credential split with its `localhost`/`143` defaults (imapcp.py:43-76), and every `print` and `pprint`.
- The exclusion regular expressions (imapcp.py:55-58) are modelled as literal prefixes. `re.match` anchors them at the start of the name; the rest of the regular expression language is left out.
- Header parsing (`email.message_from_string`, imapcp.py:198) is left out. A message carries its Message-ID as a field, `None` when the header is missing. The full RFC 822 fetch returns the message value that APPEND stores.
- The iteration order of the dictionary in `__getServerType` is not fixed by the program. It is the parameter `rules` of `Dialect.ServerTypeOf`, which may be either order.
- LIST replies with literals or tuples, and BAD or other statuses besides OK and NO, are left out. A server's LIST reply is part of its fixed profile.
- Errors are collapsed into one kind of value. The program raises `RuntimeError` on a bad status, and `imaplib` raises its own error for a SEARCH issued when no mailbox is selected. In the model both end the run with an error value that names the status. The kind of exception and its text are left out.
- A fetch cannot fail during a run. The identifiers come from SEARCH on the same selected mailbox, so every one addresses a message. The copy loop therefore has no failure branch, and the wrappers keep theirs for other callers.
- The SEARCH and FETCH commands change nothing and are not logged. The ghost log records only the commands that name a mailbox.
- The text a server sends when refusing to SELECT a missing mailbox is taken to be `[NONEXISTENT] Unknown Mailbox`. What matters is that it does not contain "special mailbox".
