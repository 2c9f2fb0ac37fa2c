# Clavix: a verified model

Clavix is a client for a Bitwarden-compatible password vault: a TypeScript interface over a Rust engine. This project
models the parts of it that compute something or keep something true, and proves what they promise.

- **Tables and trees** (`Csv`, `Keepass`, `Tree`, `TreeShape`, `TreeIdents`, `TreeNodes`, `NodeSort`, `TreeBuild`,
  `Filter`, `Sidebar`, `VaultTrees`, `FolderCounts`). The CSV reader and writer of the import and export; the sidebar
  tree grown by inserting paths, counted and sorted, first as a value, then as mutable nodes proved equal to it; and
  the agreement of the counts the tree caches with what the item list shows.
- **Codes and dates** (`Calendar`, `Timestamp`, `Base32`, `Hotp`, with `Numeral` and `Decimal`). Day counts against a
  calendar walked day by day, time stamps that sort as text, three base32 decoders against one bit string, one-time
  codes.
- **Folders** (`FolderMove`, `Dragging`, `RenameBatch`). Moving a folder rewrites string prefixes; what a drag renames
  against what the sidebar shows; the batch that carries it out survives a stop after any request or log write.
- **Keys** (`Secrets`, `Export`, `Share`, `History`, `Duplicate`, `Summary`, `EncStrings`). Encryption is symbolic: a
  ciphertext holds its key, its vector and its content, and opens only under that key. Export, sharing, copying and
  updates are shown to keep what a reader sees.
- **Protocols** (`SignApproval`, `AgentStop`, `SshWire`, `AutoLock`, `SessionSlot`). Each section that holds a lock is
  one step, and steps of all tasks interleave freely; results are about every reachable state. A class in each module
  holds the shared fields and does the sections in place; its methods are tied to the step functions the results are
  about.

`Text` and `Optional` hold what several modules share. Random vectors and salts, the clock, probes, servers, MACs and
library orders are parameters, and every result holds for all of them. `dafny verify dfyconfig.toml` checks everything.

## Where the code does not do what one might expect

Each of these is a lemma in the table; the code was modelled as it is.

- A folder name may contain `#`. A folder named `C#` is dragged as the folder `C` (`VaultTrees.HashNameDecodesWrong`), and
  two sidebar nodes share a key exactly when a name imitates the key of a repeated path
  (`VaultTrees.FolderKeysExactly`, `VaultTrees.HashInNameCollides`), and exactly then some folder count is wrong (`FolderCounts.FolderCountsExactly`).
- The sidebar trims the segments of a name, the engine does not: `work / a` is shown under `work` and stays behind when
  `work` is dragged (`Dragging.ShownMovesExactly`, `Dragging.SpacedNameStaysBehind`).
- Renaming a path to one above it may leave folders under the old path (`FolderMove.LeftUnderExactly`).
- Collection counts count an item once for every collection it has in the subtree; the list shows it once
  (`VaultTrees.CollectionCountIsShown`, `FolderCounts.SharedItemCountsTwice`).
- The digit clamp admits ten digits, but 10^10 does not fit the 32 bits the Rust computes it in. A release build wraps and
  then disagrees with the TypeScript (`Hotp.SameCode`, `Hotp.TenDigitsDiffer`); a debug build would panic there. The
  comment in totp.rs says the two mirror each other.
- The two base32 decoders of the clients differ on an `=` before the end of the text and on some characters beyond ASCII
  (`Base32.JsAgreesWithRust`, `Base32.InnerPaddingDiffers`, `Base32.DotlessIDiffers`).
- Rolling a rename back from the log restores the server only if memory had held the server's own names; a folder created
  since the last sync is there in plain text, and one that has left memory is renamed but not logged
  (`RenameBatch.RollbackRestores`, `RenameBatch.PlaintextOriginalIsLost`, `RenameBatch.UnloggedRenameIsLost`).
- Sealing does not check the size limit that opening checks, so a large vault is exported and cannot be opened again
  (`Export.SealedOpensExactly`, `Export.LargeVaultIsLost`).
- Logging in marks no activity, so a new session may be dropped by the very next watchdog round; and a verdict is carried
  out on whatever session is there once the agent has stopped (`AutoLock.NewSessionLockedExactly`,
  `AutoLock.LoginLockedASecondLater`, `AutoLock.FreshSessionDropped`).
- A window beyond seven days is stored and means no auto-lock; for the screen lock, zero and garbage mean at once
  (`AutoLock.SentSettingLocksExactly`).
- A refresh that outlives its session sets a deadline on a standalone one, puts its tokens into a session of another
  account, from where they are sent, and its refresh token into that account's stored session
  (`SessionSlot.DeadlineOnStandalone`, `SessionSlot.ForeignTokenIsSent`, `SessionSlot.ForeignTokenIsStored`); one that
  outlives a login of its own account overwrites the new login's tokens (`SessionSlot.SecondLoginLosesItsTokens`).
- A parameter of an otpauth URI such as `0x8` is a number to TypeScript and none to Rust (`Hotp.ClampsOfTextExactly`).
- Stopping the SSH agent ends the accept loop; a connection that is open goes on being served
  (`AgentStop.NewRequestsExactly`, `AgentStop.SignsExactly`).

## Model

| member | source | states |
|---|---|---|
| `Csv.ParseCsv` | src/lib/csv.ts:10-69 | the loop over position, field, row and quote flag returns exactly the table of the state machine, blank rows dropped, for every text |
| `Csv.ScanQuoted` | src/lib/csv.ts:21-35 | from inside quotes, the doubled form of any value and its closing quote leave exactly that value in the field |
| `Csv.ScanRow` | src/lib/csv.ts:10-69 | a printed row of any cells leaves all of them in the state, the last one still open |
| `Csv.ParsePrint` | src/lib/csv.ts:10-213 | parsing any printed table gives back its rows that have content, for each of the three line endings |
| `Csv.RoundTripExact` | src/lib/csv.ts:10-213 | the round trip is the identity exactly on tables whose every row has a non-empty cell |
| `Csv.ParseWithoutFinalEol` | src/lib/csv.ts:61-68 | a last row without a line ending is not lost |
| `Csv.ParsePrintParse` | src/lib/csv.ts:10-213 | parse, print, parse equals parse on every input text |
| `Csv.SerializeBitwardenCsv` | src/lib/csv.ts:194-213 | the app's own parser reads back the header row and one row for each item, with each of the eleven cells under its name: marks as `1` and `0`, the type as `login` or `note` |
| `Csv.AddressesBack` | src/lib/csv.ts:205 | the addresses come back from their one cell exactly if none has a line feed in it and they are not just one empty one |
| `Csv.FieldsBack` | src/lib/csv.ts:190-193 | the custom fields come back from theirs exactly if none has a line feed in it, nor a colon and a space in its name |
| `Keepass.IndexOf` | src/lib/csv.ts:92 | the first column of a name, negative exactly when there is none |
| `Keepass.KeepassReads` | src/lib/csv.ts:87-122 | entries written under any order and spelling of the columns are read back, trimmed where the app trims; without a title column the import is refused |
| `Tree.SplitPath` | src/lib/tree.ts:24-26 | no segment is empty or contains a slash |
| `Tree.SplitPathExactly` | src/lib/tree.ts:24-26 | the segments are the parts between slashes that are not blank, in order, each without the white space around it |
| `Tree.LastHash` | src/lib/tree.ts:11-22 | the position of the last `#`, negative exactly when there is none |
| `TreeShape.InsertGathers` | src/lib/tree.ts:28-111 | an insertion adds the new leaf's facts at its path and takes none away, for any fact of nodes and paths |
| `TreeShape.InsertPlaces` | src/lib/tree.ts:28-111 | the inserted id is added at exactly its path; no other id moves |
| `TreeShape.InsertGood` | src/lib/tree.ts:28-111 | after an insertion siblings of one name are still one synthetic node or only real ones, the first with the natural key and all descendants |
| `TreeShape.BuiltOwned` | src/lib/tree.ts:28-120 | every node of a finished folder tree belongs to no organization, and every node of an organization's tree to that one |
| `TreeIdents.IdentsUnique` | src/lib/tree.ts:28-111 | with distinct ids every node is told apart by its path and, for a repeated path, its id |
| `TreeIdents.InsertIdents` | src/lib/tree.ts:28-111 | an insertion adds the first nodes on its way, and a duplicate exactly when a real node was at its path |
| `TreeIdents.SameKeyExactly` | src/lib/tree.ts:83-107 | two different nodes are spelled with one key exactly when one is a duplicate and the name of the other imitates it |
| `TreeIdents.KeysUniqueExactly` | src/lib/tree.ts:28-111 | the keys of a tree all differ exactly when it holds no such pair |
| `VaultTrees.InsertedShape` | src/lib/tree.ts:28-111 | after any sequence of insertions with distinct ids each id sits on exactly one node, at its path, in the right sibling shape |
| `VaultTrees.IdentsExactly` | src/lib/tree.ts:28-111 | the nodes are exactly the root, one for every prefix of an inserted path, and one more for each repetition of a path |
| `VaultTrees.InsertedKeysExactly` | src/lib/tree.ts:28-111 | all keys differ exactly when no name imitates, with a `#` and an id, the key of a repeated path |
| `VaultTrees.BuiltShape` | src/lib/tree.ts:113-138 | counting and sorting leave ids, places, keys and paths as the insertions made them |
| `VaultTrees.FolderTreeBuilt` | src/lib/tree.ts:205-227 | the finished folder tree has each folder at its path, whatever its name |
| `VaultTrees.FolderKeysExactly` | src/lib/tree.ts:205-227 | its keys all differ exactly when the folder list has no three folders that clash: two of one path, and one named like that path, `#` and the later id |
| `VaultTrees.FolderKeysDecode` | src/lib/tree.ts:11-22 | `folderPathFromKey` of a folder node is its joined path exactly for repeated paths and for paths without a `#` |
| `VaultTrees.NaturalKeyDecodes` | src/lib/tree.ts:11-22 | a natural key decodes to its path exactly when the path has no `#` |
| `VaultTrees.DuplicateKeyDecodes` | src/lib/tree.ts:11-22 | the key of a repeated path always does, when the id has none |
| `VaultTrees.HashNameDecodesWrong` | src/lib/tree.ts:11-22 | a folder named `C#` decodes to `C` |
| `VaultTrees.HashInNameCollides` | src/lib/tree.ts:83-107 | three folders named `a`, `a` and `a#x` whose tree has two nodes with one key |
| `VaultTrees.OrgTreeBuilt` | src/lib/tree.ts:229-260 | an organization tree keeps its own root count and has each of its collections at its path, whatever its name |
| `VaultTrees.AllKeysUnique` | src/lib/tree.ts:140-154 | keys are unique across all trees together, so a key selects one node, exactly when no tree has a clash of its own |
| `VaultTrees.FolderCountIsShown` | src/lib/tree.ts:113-121 | without a clash of names every folder node's cached count is the number of items the list shows when it is selected |
| `FolderCounts.FolderCountsExactly` | src/lib/tree.ts:113-154 | every folder count is right for every list of items exactly when the folder list has no clash of names |
| `FolderCounts.ClashMiscounts` | src/lib/tree.ts:140-154 | where there is one, a single item in the repeated folder is enough |
| `VaultTrees.CollectionCountIsShown` | src/lib/tree.ts:123-133 | a collection node's count is at least what is shown, and equal exactly when no live item has two collections in the subtree |
| `VaultTrees.CountedTwice` | src/lib/tree.ts:123-133 | with one item in a collection and in another below it, the node says more than the list shows |
| `FolderCounts.SharedItemCountsTwice` | src/lib/tree.ts:123-133 | a vault: collections `a` and `a/b` and an item in both |
| `VaultTrees.OrgCountIsShown` | src/lib/tree.ts:229-260 | an organization root's count is the number of items shown when it is selected |
| `Sidebar.TotalIsHits` | src/lib/tree.ts:113-133 | the total of a subtree is the number of hits of live items on its ids, with multiplicity |
| `Sidebar.ShownIsHit` | src/lib/filter.ts:53-68 | an item is shown for a node exactly when it hits one of the ids in its subtree |
| `Sidebar.ShownCount` | src/lib/filter.ts:53-68 | shown items never outnumber hits, and match them exactly when each live item hits at most once |
| `Sidebar.SortCounted` | src/lib/tree.ts:135-138 | sorting by any order leaves every cached count right |
| `Filter.BuildCipherIndex` | src/lib/tree.ts:181-203 | one pass leaves, for every id, the number of live items carrying it, for every type the number its filter keeps, and the favourites and trash counts |
| `Filter.SortCiphers` | src/lib/filter.ts:70-82 | sorting keeps exactly the same items |
| `Filter.SortedInOrder` | src/lib/filter.ts:70-82 | and leaves them in order under any comparison of all pairs |
| `Filter.SortIsStable` | src/lib/filter.ts:70-82 | items the comparison does not tell apart stay in the order they came in |
| `Filter.ListShows` | src/lib/filter.ts:84-110 | the item list has each item that passes the quick filter, the selected node and the search as often as the vault has it, and no other |
| `Filter.ListInOrder` | src/lib/filter.ts:109 | and it is in the order the user chose |
| `TreeNodes.Find` | src/lib/tree.ts:51-91 | the first matching child of a mutable node is the first matching subtree of the tree it stands for |
| `TreeNodes.Push` | src/lib/tree.ts:92-107 | appending a new node changes one list and leaves every other node as it was |
| `TreeNodes.PromoteNode` | src/lib/tree.ts:87-89 | promotion writes only the ids the leaf brings |
| `TreeNodes.EnterChild` | src/lib/tree.ts:42-65 | one internal step of the walk, in place, leaves the pending insertion below the right child |
| `TreeNodes.PlaceLeaf` | src/lib/tree.ts:66-109 | the last step of the walk, in place, completes the insertion |
| `TreeNodes.InsertPath` | src/lib/tree.ts:28-111 | the whole walk over mutable nodes equals the recursive insertion on the tree they stand for |
| `TreeNodes.SetCount` | src/lib/tree.ts:119 | writing a count changes that node's count alone |
| `TreeNodes.ComputeCounts` | src/lib/tree.ts:113-133 | the recursive count over mutable nodes returns the subtree's total and leaves exactly the right counts below |
| `TreeNodes.CountChildren` | src/lib/tree.ts:116-118 | its loop over the children |
| `TreeNodes.BuildFolderNodes` | src/lib/tree.ts:205-224 | building the folder tree in place gives the counted tree of all insertions |
| `NodeSort.SortTwice` | src/lib/tree.ts:136 | sorting a sorted list changes nothing, for any total comparison |
| `NodeSort.SortTreeInOrder` | src/lib/tree.ts:135-138 | in the sorted tree the children of every node stand in the order of their names |
| `NodeSort.ArrangedOrdered` | src/lib/tree.ts:135-138 | sorting any of the child lists keeps the nodes a tree: every node has one parent and sits in its list once |
| `NodeSort.SortedIsSortTree` | src/lib/tree.ts:135-138 | once every list at and below a node is sorted, the nodes stand for the recursively sorted tree |
| `NodeSort.SortChildren` | src/lib/tree.ts:136 | sorting one list in place permutes that list and changes no other node |
| `NodeSort.SortBelow` | src/lib/tree.ts:135-138 | the recursion sorts every list below the node and disturbs none already sorted |
| `NodeSort.SortTreeNodes` | src/lib/tree.ts:135-138 | sorting the nodes in place gives exactly the sorted tree |
| `TreeBuild.BuildFolderRoot` | src/lib/tree.ts:205-227 | the folder tree grown, counted and sorted in place is the one the results about places, keys and counts are about |
| `TreeBuild.InsertCollections` | src/lib/tree.ts:246-255 | one organization's collections are inserted in list order, all others and empty names skipped |
| `TreeBuild.BuildOrgRoot` | src/lib/tree.ts:229-259 | so is each organization tree, whose root keeps the organization's own count |
| `TreeBuild.BuildOrgRoots` | src/lib/tree.ts:229-260 | one tree for each organization, in order, none disturbing another |
| `SignApproval.StepKeeps` | src-tauri/src/ssh_agent.rs:278-314 | the protocol invariant survives every lock-held section, answer and arrival |
| `SignApproval.RunKeeps` | src-tauri/src/ssh_agent.rs:278-314 | it holds after every interleaving |
| `SignApproval.PerSessionSignsApprovedKeys` | src-tauri/src/ssh_agent.rs:278-298 | asking once per key: no signature before a yes for that very fingerprint, however requests interleave |
| `SignApproval.ApprovedMeansYes` | src-tauri/src/ssh_agent.rs:282-296 | the approved set holds only fingerprints somebody said yes to |
| `SignApproval.AlwaysSignsOnItsOwnYes` | src-tauri/src/ssh_agent.rs:278-298 | asking every time: each signature has its own earlier yes, shared with no other |
| `SignApproval.AnsweredOnceAndCleanedUp` | src-tauri/src/commands/ssh.rs:80-133 | no request is answered twice, and a finished one leaves no channel parked |
| `SignApproval.AnswersNameOneRequest` | src-tauri/src/commands/ssh.rs:80-133 | until the counter wraps, no two answers carry the same number |
| `SignApproval.GaveUpNeverSigns` | src-tauri/src/commands/ssh.rs:106-118 | a request that timed out or was refused never signs, whatever answers still come |
| `SignApproval.AboutItsArrival` | src-tauri/src/ssh_agent.rs:278-314 | whatever is asked, answered or signed for a request is about the fingerprint it arrived with |
| `SignApproval.AnswersWereGiven` | src-tauri/src/commands/ssh.rs:124-133 | every answer on record was given, under that number and with that verdict |
| `SignApproval.GivesUp` | src-tauri/src/ssh_agent.rs:278-314 | a no, no answer in time, a prompt that cannot be shown, nobody to show it to, or a key that is gone make a request give up |
| `SignApproval.Desk.IsApproved` | src-tauri/src/ssh_agent.rs:282-290 | the first section of a request, on the shared set |
| `SignApproval.Desk.Approve` | src-tauri/src/ssh_agent.rs:292-296 | the last section: only the approved set changes, as the protocol step says |
| `SignApproval.Desk.NextId` | src-tauri/src/commands/ssh.rs:82-86 | the counter steps and wraps as the protocol step says |
| `SignApproval.Desk.ParkChannel` | src-tauri/src/commands/ssh.rs:87-88 | the channel is parked under its number |
| `SignApproval.Desk.RespondTo` | src-tauri/src/commands/ssh.rs:124-133 | the answer goes to whoever is parked under that number, and the entry goes either way |
| `SignApproval.Desk.Drop` | src-tauri/src/commands/ssh.rs:106-118 | after a timeout or a prompt that could not be shown no entry is left |
| `SignApproval.Desk.Ask` | src-tauri/src/commands/ssh.rs:80-120 | one confirmation from end to end, in place, is its steps of the protocol, and its result says whether the request is granted |
| `SignApproval.Desk.Authorize` | src-tauri/src/ssh_agent.rs:278-314 | so is one authorization under any policy; a yes under PerSession leaves the key approved |
| `AgentStop.IsProtocolRun` | src-tauri/src/ssh_agent.rs:444-469 | across connections and stops the approvals are one run of the protocol, so all of the above holds of it |
| `AgentStop.OpenExactly` | src-tauri/src/ssh_agent.rs:444-469 | the agent accepts until the first stop; open are exactly the connections made before it and not hung up since |
| `AgentStop.RequestsExactly` | src-tauri/src/ssh_agent.rs:479-512 | a request is known to the agent exactly when it came in over a connection that was open at that moment |
| `AgentStop.AfterStop` | src-tauri/src/ssh_agent.rs:327-331 | after a stop no connection is added, and without connections no request arrives |
| `AgentStop.NewRequestsExactly` | src-tauri/src/ssh_agent.rs:444-469 | a stopped agent takes new requests exactly as long as a connection from before the stop is open |
| `AgentStop.SignsAfterStop` | src-tauri/src/ssh_agent.rs:479-512 | over such a connection an approved key is still signed with |
| `AgentStop.SignsExactly` | src-tauri/src/ssh_agent.rs:444-469 | a stopped agent signs in some continuation exactly when a connection is open over which a request would be granted, or a request that had arrived can still be |
| `Calendar.YearOfEraCorrect` | src-tauri/core/src/time.rs:19 | the closed form gives, for each of the 146097 days of an era, the one year whose days include it |
| `Calendar.FloorDivision` | src-tauri/core/src/time.rs:17-18 | the adjusted truncating division is floor division, for negative days too |
| `Calendar.MonthOf` | src-tauri/core/src/time.rs:21-24 | month and day follow from the day of the March-based year |
| `Calendar.NextCountNextDay` | src-tauri/core/src/time.rs:15-26 | day n+1 is the calendar successor of day n, for every integer n |
| `Calendar.AgreesWithWalk` | src-tauri/core/src/time.rs:15-26 | every day count, negative ones included, gives the date reached by walking day by day from 1970-01-01, always a valid date |
| `Calendar.CivilRoundTrip` | src-tauri/core/src/time.rs:15-26 | an inverse day count restores every n |
| `Calendar.DateRoundTrip` | src-tauri/core/src/time.rs:15-26 | and every valid date is restored from its day count |
| `Calendar.OverflowOnlyAtTheEnd` | src-tauri/core/src/time.rs:15-26 | no step leaves 64 bits exactly for counts up to the largest minus 719468 |
| `Timestamp.StampLength` | src-tauri/core/src/time.rs:31-41 | through the year 9999 the stamp has 24 characters |
| `Timestamp.StampReads` | src-tauri/core/src/time.rs:31-41 | through the year 9999 the six numbers in a stamp are the date reached by walking day by day and the hours, minutes and seconds of the rest, each in its columns |
| `Timestamp.Epoch` | src-tauri/core/src/time.rs:57-60 | the stamp of the first second, letter for letter |
| `Timestamp.StampOrder` | src-tauri/core/src/time.rs:31-41 | string order is time order, and the string determines the second (sections 5.1 and 5.6 of RFC 3339) |
| `Timestamp.RenderOrder` | src-tauri/core/src/time.rs:35-40 | zero-padded fields that fit their widths sort as text exactly as they sort as numbers |
| `Base32.DecodeRust` | src-tauri/core/src/totp.rs:47-70 | the loop with its never-masked unsigned 32-bit accumulator yields the whole bytes of the symbols' bit string, or the first bad character |
| `Base32.DecodeJs` | src/lib/totp.ts:12-28 | so does the loop with its never-masked signed accumulator |
| `Base32.DecodeSeed` | src-tauri/examples/e2e_seed.rs:458-478 | so does the loop that masks |
| `Base32.ScanSymbol` | src-tauri/core/src/totp.rs:61-66 | one round: the word grows by five bits and at most one byte comes out, for all three kinds of accumulator |
| `Base32.WrappingKeepsByte` | src-tauri/core/src/totp.rs:61-66 | wrapping to 32 bits, signed or not, never reaches the byte being cut out |
| `Base32.ShiftOrIsMultiplyAdd` | src-tauri/core/src/totp.rs:61 | on 32-bit words shift-and-or is a wrapping multiply and add |
| `Base32.JsAgreesWithRust` | src-tauri/core/src/totp.rs:47-70 | on every text: the same bytes where both clients accept, and for each the exact texts it accepts and the other refuses |
| `Base32.InnerPaddingDiffers` | src-tauri/core/src/totp.rs:51-55 | `A=A` is read by Rust and refused by TypeScript |
| `Base32.DotlessIDiffers` | src/lib/totp.ts:13 | a dotless i is read by TypeScript as an I and refused by Rust |
| `Base32.SeedAgreesWithJs` | src-tauri/examples/e2e_seed.rs:458-478 | on every text the seeding tool accepts what TypeScript does, short of white space and non-ASCII characters, with the same bytes |
| `Base32.DecodesEncoded` | src-tauri/core/src/totp.rs:47-70 | every decoder undoes the encoding of section 6 of RFC 4648 for every byte string |
| `Base32.DecodesAnyCase` | src-tauri/core/src/totp.rs:47-73 | capitals and small letters decode alike in all three decoders |
| `Base32.BytesOfEncodedSymbols` | src-tauri/core/src/totp.rs:61-66 | dropping the fill bits of the encoded symbols gives the bytes back |
| `Hotp.DynamicTruncation` | src-tauri/core/src/totp.rs:137-141 | the four bytes lie inside every MAC of 20 bytes or more, and the result is their value modulo 2^31 (section 5.3 of RFC 4226) |
| `Hotp.CodesHaveAllDigits` | src-tauri/core/src/totp.rs:142-148 | for every MAC and every clamped length the code has exactly that many characters |
| `Decimal.PaddedReads` | src-tauri/core/src/totp.rs:144-148 | a zero-padded number has only digits in it and reads as that number, at any width |
| `Hotp.CodesRead` | src-tauri/core/src/totp.rs:142-148 | what a user reads is the truncated value modulo the power of ten, in Rust up to nine digits and in TypeScript at all; at ten digits Rust shows it modulo the wrapped power (section 5.3 of RFC 4226) |
| `Hotp.SameCode` | src-tauri/core/src/totp.rs:142-148 | the Rust and TypeScript codes are equal exactly when fewer than ten digits are asked for or the value is below the wrapped power of ten |
| `Hotp.TenDigitsDiffer` | src-tauri/core/src/totp.rs:103-104 | a MAC for which they differ at ten digits, which the clamp admits |
| `Hotp.SeedCodeIsRustCode` | src-tauri/examples/e2e_seed.rs:438-455 | the seeding tool's six digits are the Rust code |
| `Hotp.SameCounter` | src/lib/totp.ts:68-72 | both clients feed the MAC the same eight counter bytes |
| `Hotp.CounterBytes` | src-tauri/core/src/totp.rs:135-136 | they are the counter, big-endian (section 5.1 of RFC 4226) |
| `Hotp.CodeConstantInWindow` | src-tauri/core/src/totp.rs:153-161 | the code stays for exactly the announced seconds, and then the counter has stepped by one |
| `Hotp.ClampsAgree` | src-tauri/core/src/totp.rs:75-80 | from one and the same number both clamps settle on the same value, inside the range |
| `Hotp.DigitsAreClamped` | src-tauri/core/src/totp.rs:103-104 | the clamp lets through four to ten digits, each of which can be asked for, and periods of a second to an hour; nothing said means six and thirty |
| `Hotp.ClampsOfTextExactly` | src/lib/totp.ts:33-37 | from one text they do exactly when it has no white space around it and is no radix literal, or TypeScript falls back as well |
| `Hotp.EightDigitsOrSix` | src/lib/totp.ts:33-37 | `0x8` and ` 8 ` are eight digits in TypeScript and six in Rust |
| `Hotp.RadixLiterals` | src/lib/totp.ts:33-37 | what `Number` makes of a text with a radix prefix, on samples of each base |
| `FolderMove.Clean` | src-tauri/core/src/services/vault.rs:136 | a cleaned path neither starts nor ends with a slash |
| `FolderMove.RenamedIsPrefixReplacement` | src-tauri/core/src/services/vault.rs:168-181 | for every three strings the rewrite replaces a prefix of the segment list and nothing else |
| `FolderMove.UnderIsSegmentPrefix` | src-tauri/core/src/services/vault.rs:173-176 | the string test for lying below a path is the prefix test on segments |
| `FolderMove.RenamedBack` | src-tauri/core/src/services/vault.rs:168-181 | a renamed folder lies under the new base, and renaming the other way restores it |
| `FolderMove.RenamedInjective` | src-tauri/core/src/services/vault.rs:168-181 | two folders of the moved subtree never get one name |
| `FolderMove.PlanCovers` | src-tauri/core/src/services/vault.rs:188-200 | the plan names exactly the folders under the source, each once, with its prefix replaced |
| `FolderMove.MovedAt` | src-tauri/core/src/services/vault.rs:188-200 | ids and their number are kept; names change only as the rewrite says |
| `FolderMove.MoveAndBack` | src-tauri/core/src/services/vault.rs:188-200 | moving back restores every folder exactly when nothing outside the subtree lay at or under the new base |
| `FolderMove.LeftUnderExactly` | src-tauri/core/src/services/vault.rs:168-181 | what is left at or under the old path: exactly the folders that repeat the rest of it, and only when the new path is above it |
| `FolderMove.MovedAway` | src-tauri/core/src/services/vault.rs:168-181 | when neither path lies under the other, no moved folder is left under the old path |
| `FolderMove.AcceptedRename` | src-tauri/src/commands/move_share.rs:132-148 | a rename is carried out exactly between non-empty paths of which the new one does not begin with the old one, segment by segment |
| `FolderMove.AcceptedMove` | src-tauri/core/src/services/vault.rs:132-164 | an accepted move keeps the folder's own name and never puts it strictly below itself |
| `FolderMove.RefusedMoves` | src-tauri/core/src/services/vault.rs:136-150 | a move is refused exactly for an empty source or a target whose segments begin with the source's |
| `FolderMove.LastSegmentNotEmpty` | src-tauri/core/src/services/vault.rs:152-157 | the error for a missing last segment is never returned |
| `FolderMove.DropMatchesMove` | src/lib/drag.ts:4-13 | the sidebar accepts a drop exactly where the engine accepts the move of the cleaned paths |
| `Dragging.MovedIsShown` | src-tauri/core/src/services/vault.rs:188-200 | every folder the engine renames for the path of a node is shown at or below that node |
| `Dragging.ShownMovesExactly` | src/lib/tree.ts:24-26 | of the folders shown there, those are renamed whose raw name begins with the path's segments, spaces included |
| `Dragging.DragMovesExactly` | src/lib/drag.ts:22-30 | from the key of a node of the folder tree to the names on the server: which folders a drag renames |
| `Dragging.SpacedNameStaysBehind` | src/lib/tree.ts:24-26 | `work / a` is shown under `work` and stays behind |
| `RenameBatch.StepKeeps` | src-tauri/src/commands/move_share.rs:230-238 | the batch invariant survives every request, lost reply, refusal and log write |
| `RenameBatch.CrashSafe` | src-tauri/src/commands/move_share.rs:203-238 | at every stopping point a flagged row has its new name on the server, and any other row its new or its former name |
| `RenameBatch.ResumeReachesPlan` | src-tauri/core/src/cache.rs:227-264 | from every stopping point resending the unflagged rows reaches exactly the planned names, if and only if every folder that had left memory before the log was saved was reached, is not on the server, or had its new name anyway |
| `RenameBatch.RollbackRestores` | src-tauri/core/src/cache.rs:227-264 | resending the originals restores the server exactly when memory had the server's own name of every folder it had, and no folder that had left it was reached |
| `RenameBatch.LogIsFaithfulExactly` | src-tauri/core/src/cache.rs:227-252 | the logged originals are the server's names exactly when memory had them, for the folders it had |
| `RenameBatch.UnloggedRenameIsLost` | src-tauri/src/commands/move_share.rs:203-239 | a folder that left memory before the log was saved is renamed all the same, and the rollback does not bring it back |
| `RenameBatch.PlaintextOriginalIsLost` | src-tauri/src/commands/move_share.rs:167-183 | a folder held in memory in plain text is not restored: a concrete run |
| `RenameBatch.SuccessAgrees` | src-tauri/src/commands/move_share.rs:240-249 | after success the server has every planned name and memory shows the server's names |
| `RenameBatch.LogFailuresAreHarmless` | src-tauri/src/commands/move_share.rs:226-237 | failing log writes change nothing but the log |
| `RenameBatch.OperationsDistinct` | src-tauri/src/commands/move_share.rs:186-195 | a plan over distinct folders gives a batch that names each folder once |
| `RenameBatch.MoveSucceeds` | src-tauri/src/commands/move_share.rs:151-250 | a move that ends well leaves every folder of the subtree on the server under its rewritten path |
| `RenameBatch.Client.SaveBatch` | src-tauri/core/src/cache.rs:227-252 | the log gets one unapplied row for each operation whose folder is still in memory, or nothing |
| `RenameBatch.Client.Send` | src-tauri/src/commands/move_share.rs:231-233 | one request: the server changes, or not, independently of what the client sees |
| `RenameBatch.Client.StampMemory` | src-tauri/src/commands/move_share.rs:240-248 | memory gets every new name of a folder still there |
| `RenameBatch.Client.Round` | src-tauri/src/commands/move_share.rs:230-238 | one request and its flag take the state exactly two protocol steps on; after a failed request no flag is written |
| `RenameBatch.Client.Apply` | src-tauri/src/commands/move_share.rs:151-250 | the loop ends in exactly the state the step functions give for its requests, at whichever request it stops |
| `Secrets.RekeyKeepsView` | src-tauri/core/src/crypto.rs:464-471 | the chain of re-encryptions goes through exactly when every field opens, and then changes nothing a reader sees, whatever vectors are drawn |
| `Secrets.ViewGoesThrough` | src-tauri/core/src/services/cipher.rs:15-44 | a reader sees an item through its own key if that is wrapped for the owner, and through the owner's otherwise; the owner is the organization whose key is known, or else the user |
| `Export.ExportSucceeds` | src-tauri/core/src/export.rs:170-232 | an export is written exactly when every folder, live item and known organization's collection opens |
| `Export.ExportKeepsViews` | src-tauri/core/src/export.rs:170-371 | through the exported vault and its key map every live item reads as before; only key and attachments are gone |
| `Export.ExportKeepsNames` | src-tauri/core/src/export.rs:177-212 | so do folder names and the names of known organizations' collections; unknown ones are left as they are, and of no folder or collection anything but the ciphertext of its name is written anew |
| `Export.ExportKeepsFolder` | src-tauri/core/src/export.rs:177-187 | every live item is in the same folders, by their names, as before |
| `Export.ExportKeepsCollection` | src-tauri/core/src/export.rs:189-212 | and in the same collections, by their names, of every organization whose key was known, read with the keys of the opened file |
| `Export.LiveInOrder` | src-tauri/core/src/export.rs:214-222 | the live items keep their order; none is lost or doubled |
| `Export.BuildOrgKeyMap` | src-tauri/core/src/export.rs:513-533 | the loop maps exactly the organization ids of items, collections and profile to the vault key |
| `Export.SealedOpensExactly` | src-tauri/core/src/export.rs:378-503 | what was sealed opens under the same password exactly when the JSON of that vault is shorter than a bound given in closed form; the writer does not check it |
| `Export.OnlySealedOpens` | src-tauri/core/src/export.rs:423-503 | a file opens to a vault and a key exactly if it is small enough and was sealed from them under that password |
| `Export.LargeVaultIsLost` | src-tauri/core/src/export.rs:423-432 | a vault whose JSON has 96 MiB or more is sealed without complaint and never opens |
| `Export.OtherPasswordRefused` | src-tauri/core/src/export.rs:470-475 | under any other password the answer is that the password is wrong |
| `Export.EditedHeaderRefused` | src-tauri/core/src/export.rs:470-483 | a file whose header was edited in any way never opens |
| `Export.SaturatedMemoryDerivesOneKey` | src-tauri/core/src/crypto.rs:159-164 | two memory settings can derive one key, so only the header check tells them apart |
| `Export.MemoryInKib` | src-tauri/core/src/crypto.rs:159-164 | memory is handed over in KiB, as far as 32 bits go |
| `Export.OneKeyExactly` | src-tauri/core/src/crypto.rs:223-251 | two derivations give one key exactly if password, salt, kind, iterations and, for Argon2id, those KiB and the parallelism are the same |
| `Export.SealSucceeds` | src-tauri/core/src/export.rs:378-396 | sealing succeeds exactly for settings at or above the floors that the Argon2 library accepts |
| `Export.WeakFileTellsNothing` | src-tauri/core/src/export.rs:459-468 | a file with settings below the floors gets the same answer for every password, and it is not about the password |
| `Export.ExportRoundTrip` | src-tauri/core/src/export.rs:170-533 | export, seal, open and key map together: every live item reads as before |
| `Share.ShareSucceeds` | src-tauri/core/src/services/cipher.rs:401-598 | a share is possible exactly when the item is readable and, a note apart, has the login, card, identity or SSH key its type says |
| `Share.ShareKeepsView` | src-tauri/core/src/services/cipher.rs:401-598 | whoever holds the organization's key sees what the owner saw, with and without an item key; only valueless addresses are gone |
| `Share.ShareKeepsRest` | src-tauri/core/src/services/cipher.rs:538-596 | the shared item is the owner's in kind, favourite mark and demand for the master password (absent means none); it is in that organization, in the chosen collections, in no folder, and all else is as it was |
| `Share.BrokenItemKeyIsDropped` | src-tauri/core/src/services/cipher.rs:408-420 | an item key that no longer opens falls back to the owner's key and is not carried along |
| `History.UpdatedHistory` | src-tauri/core/src/services/cipher.rs:237-288 | the filter, insertion and truncation of one update, for any stored history |
| `History.HistoryOverRuns` | src-tauri/core/src/services/cipher.rs:237-288 | after any run of saves the history is exactly the non-empty passwords replaced by a different one, newest first, cut to five |
| `History.UnchangedAddsNothing` | src-tauri/core/src/services/cipher.rs:262-277 | saving an unchanged password again never adds an entry |
| `Duplicate.ReadWritten` | src-tauri/core/src/services/cipher.rs:149-375 | reading back what was written gives the input in normal form, for every input that is written at all |
| `Duplicate.SaveKeeps` | src-tauri/core/src/services/cipher.rs:46-205 | an input is written exactly if its type is known and, a note apart, its data are there; every text then reads back as it was, but for white space around those that are trimmed, and empty ones are gone |
| `Duplicate.ReadSees` | src-tauri/core/src/services/cipher.rs:303-376 | a stored item, whoever wrote it, can be copied exactly if its name opens, and the copy is filled in with what a reader sees |
| `Text.TrimIsCore` | src-tauri/core/src/services/cipher.rs:46-51 | trimming cuts off the white space at both ends and nothing else |
| `Duplicate.CopyOfCopy` | src-tauri/core/src/services/cipher.rs:303-375 | a copy of a copy is a copy, under any keys |
| `Summary.CountTypes` | src-tauri/core/src/services/vault.rs:22-34 | one pass counts every live item once, under its kind, and trashed ones nowhere |
| `Summary.CountsAddUp` | src-tauri/core/src/services/vault.rs:24-34 | the five counts add up to the number of items |
| `Summary.ShownNameIsSeen` | src-tauri/core/src/services/vault.rs:119-127 | an item is listed under the name a reader sees, or as one that could not be decrypted |
| `Summary.ExportedSummary` | src-tauri/core/src/services/vault.rs:22-70 | counts and names of an opened export are those of the vault it was made from |
| `EncStrings.ParsePrinted` | src-tauri/core/src/crypto.rs:289-337 | parsing undoes printing, and refuses only vectors and tags of the wrong size |
| `EncStrings.PlainTextDoesNotParse` | src-tauri/core/src/crypto.rs:289-337 | text that does not start like a ciphertext is never taken for one |
| `EncStrings.FillBuffer` | src-tauri/core/src/crypto.rs:514-536 | the binary form is 49 bytes of header and the ciphertext, and taking it apart gives the parts back unless the ciphertext is empty |
| `EncStrings.PartsAreTheBuffer` | src-tauri/core/src/crypto.rs:538-561 | the parts fed to the cipher are all of the buffer and of the right sizes |
| `EncStrings.Base64Length` | src/lib/limits.ts:28 | four characters for every three bytes begun |
| `EncStrings.Base64Back` | src-tauri/core/src/crypto.rs:493-498 | reading the letters by table 1 of RFC 4648 gives the bytes back, so a decoder as `ParsePrinted` asks for exists |
| `EncStrings.EncryptedLengthIsExact` | src/lib/limits.ts:35-41 | the number the interface computes is the exact length of the string the engine writes |
| `EncStrings.AcceptedExactly` | src/lib/limits.ts:44-49 | a text is accepted exactly if it is empty or the string the engine would write is no longer than the limit |
| `EncStrings.LongerNeverShorter` | src/lib/limits.ts:35-41 | a longer text never encrypts to a shorter string |
| `EncStrings.LargestAccepted` | src/lib/limits.ts:44-49 | at the default limit exactly texts of up to 7439 bytes are accepted |
| `AutoLock.SinceIsFirstSight` | src-tauri/src/auto_lock.rs:61-101 | after every run the countdown began at the first sight of a locked screen since the last unlocked sight, disarming or trigger change |
| `AutoLock.FirstSightIsSince` | src-tauri/src/auto_lock.rs:75-82 | and the other way: the first sight that nothing has reset is where the countdown stands |
| `AutoLock.IdleVerdictExactly` | src-tauri/src/auto_lock.rs:107-138 | under the idle trigger a verdict is to lock exactly when a whole usable window went by without `mark_activity` |
| `AutoLock.NeverEarly` | src-tauri/src/auto_lock.rs:107-138 | a verdict to lock comes only after the whole window since that sight, or since the last mark of activity; with the trigger off there is none |
| `AutoLock.NewSessionLockedExactly` | src-tauri/src/commands/auth.rs:99-112 | opening a session is no mark: the first watchdog round drops it exactly when the last mark is already a window old |
| `AutoLock.LoginLockedASecondLater` | src-tauri/src/commands/auth.rs:99-112 | a run: ten minutes armed at the start, a login at 700 s, dropped at 701 s |
| `AutoLock.LockingMeansVerdict` | src-tauri/src/auto_lock.rs:51-101 | a loop inside `lock_now` has given such a verdict and not yet carried it out |
| `AutoLock.OnlyVerdictsLock` | src-tauri/src/auto_lock.rs:143-171 | a session that ends other than by the user's hand was ended by a verdict |
| `AutoLock.HeldExactly` | src-tauri/src/commands/auth.rs:611-628 | in every run there is a session exactly when one was opened that neither the user has closed nor a loop has dropped since; and so with the agent and a parked second factor |
| `AutoLock.VerdictIsCarriedOut` | src-tauri/src/auto_lock.rs:143-162 | whatever else happens meanwhile, a loop that has given its verdict drops the session with its next steps |
| `AutoLock.IdleStillDueExactly` | src-tauri/src/auto_lock.rs:143-162 | idle: when a verdict is carried out the vault is still due exactly when no mark since it is younger than the window |
| `AutoLock.ScreenStillDueExactly` | src-tauri/src/auto_lock.rs:143-162 | screen lock: it is still due exactly when nothing has reset the countdown since, or a new countdown has run its window |
| `AutoLock.LaterSessionExactly` | src-tauri/src/auto_lock.rs:143-162 | the session dropped was opened after the verdict exactly when one was opened in between at all |
| `AutoLock.FreshSessionDropped` | src-tauri/src/auto_lock.rs:145-156 | a run: a login and its mark while the agent is being stopped, and the new session is dropped a second later |
| `AutoLock.IdleLocksInTime` | src-tauri/src/auto_lock.rs:43-59 | idle, whatever was set and marked before: with no mark and no change of setting from an event on, a loop that decides every period has a verdict to lock within a period after the window, or after that event if the window had passed |
| `AutoLock.ScreenLocksInTime` | src-tauri/src/auto_lock.rs:61-101 | screen lock: so it has after the first sight of a locked screen that nothing resets, under the window last set, also one set while the countdown runs |
| `AutoLock.StoredSettingsAreSane` | src-tauri/src/commands/auth.rs:567-598 | whatever is sent, a finite window is stored, and an idle window that is not zero |
| `AutoLock.SentSettingLocksExactly` | src-tauri/src/commands/auth.rs:567-598 | whether a session can be locked at all, exactly, from what was sent: a window beyond seven days is stored as it came and never locks, zero and garbage mean at once for the screen lock and off for idle |
| `AutoLock.Guard.Set` | src-tauri/src/commands/auth.rs:567-598 | the setting is normalised and a change of trigger drops the countdown, in place |
| `AutoLock.Guard.Wake` | src-tauri/src/auto_lock.rs:64-73 | an unarmed round drops the countdown, in place |
| `AutoLock.Guard.Take` | src-tauri/src/auto_lock.rs:74-96 | a probe's answer starts, ends or leaves the countdown, in place |
| `AutoLock.Guard.IsDue` | src-tauri/src/auto_lock.rs:107-138 | the branches of the decision, on the fields |
| `AutoLock.Guard.LockNow` | src-tauri/src/auto_lock.rs:143-162 | agent, pending second factor and session are gone afterwards, for either loop, and the result says whether there was a session |
| `AutoLock.Guard.Lock` | src-tauri/src/commands/auth.rs:611-628 | the user's lock in place: agent, session and second factor are gone, and the loops stand where they stood |
| `AutoLock.Guard.PollerRound` | src-tauri/src/auto_lock.rs:61-101 | a whole round of the poller, in place, is the protocol's four steps |
| `AutoLock.Guard.WatchdogRound` | src-tauri/src/auto_lock.rs:45-56 | a whole round of the watchdog drops the session exactly when the window has passed |
| `SessionSlot.StepKeeps` | src-tauri/core/src/services/auth.rs:94-215 | every login, lock, standalone vault and refresh section keeps the slot coherent |
| `SessionSlot.SlotIsCoherent` | src-tauri/core/src/session.rs:77-91 | in every reachable state client, tokens and server origin come together or not at all, and no request, refreshes included, goes out of a standalone session |
| `SessionSlot.LoginStores` | src-tauri/core/src/services/auth.rs:94-113 | after a login the slot has the access token, refresh token, lifetime and account it brought, and a deadline half a minute before the end, or a second on |
| `SessionSlot.WriteStores` | src-tauri/core/src/services/auth.rs:192-202 | after a refresh is written back it has the granted access token and lifetime, the granted refresh token or else the one sent, and the rest of the session as it was |
| `SessionSlot.OthersStore` | src-tauri/core/src/services/auth.rs:121-141 | a standalone vault has no client, tokens or deadline, a lock leaves no session, and nothing else touches the slot |
| `SessionSlot.SessionExactly` | src-tauri/src/commands/auth.rs:611-628 | in every run there is a session exactly when one was stored and nobody has locked since |
| `SessionSlot.TokensComeFrom` | src-tauri/core/src/services/auth.rs:94-202 | in every run the tokens in the slot are those of the latest login or written-back refresh |
| `SessionSlot.CallsCarryLatest` | src-tauri/core/src/services/auth.rs:152-215 | every request carries the tokens of the login or refresh that was the latest when it went out |
| `SessionSlot.CallsWereLetPass` | src-tauri/core/src/services/auth.rs:152-215 | no request goes out of a command whose check did not find a token with time left and that has not saved a refreshed one |
| `SessionSlot.RefreshesCarryLatest` | src-tauri/core/src/services/auth.rs:175-178 | and so does every refresh request |
| `SessionSlot.PhasesRemember` | src-tauri/core/src/services/auth.rs:152-202 | what a command waits for, was granted or is about to write is what it sent and what the server replied |
| `SessionSlot.FileStores` | src-tauri/core/src/services/auth.rs:204-212 | what each event leaves in the stored session |
| `SessionSlot.RefreshOutcome` | src-tauri/core/src/services/auth.rs:152-215 | one refresh with nothing in between: refused, skipped, failed, or the granted tokens are in the slot and in the file |
| `SessionSlot.SkippedRefreshHasTime` | src-tauri/core/src/services/auth.rs:152-172 | a command skips the refresh exactly when the token in the slot has more than ninety seconds left by its own lifetime |
| `SessionSlot.CheckedOutcome` | src-tauri/core/src/services/auth.rs:152-174 | the check refuses exactly empty and standalone slots, and passes or refreshes all others |
| `SessionSlot.WriteKeepsDeadline` | src-tauri/core/src/services/auth.rs:192-202 | writing back a refresh leaves a deadline next to tokens only exactly when the slot is empty or has tokens |
| `SessionSlot.DeadlineOverRuns` | src-tauri/core/src/services/auth.rs:192-202 | in every run without a write-back onto a standalone session the deadline stands next to tokens and nowhere else |
| `SessionSlot.DeadlineOnStandalone` | src-tauri/core/src/services/auth.rs:199-201 | and a run that sets one on a standalone session |
| `SessionSlot.WriteKeepsOwnTokens` | src-tauri/core/src/services/auth.rs:192-202 | writing back a refresh leaves the tokens with the right client exactly when the slot has no other account's session |
| `SessionSlot.CallsUseOwnTokens` | src-tauri/core/src/services/auth.rs:152-202 | as long as no stale refresh is written back every request, refreshes included, carries the tokens of its own client |
| `SessionSlot.ForeignTokenIsSent` | src-tauri/core/src/services/auth.rs:192-202 | and a run in which a request of one account goes out with the token of another |
| `SessionSlot.WriteKeepsOwnLogin` | src-tauri/core/src/services/auth.rs:192-202 | writing back a refresh leaves a session the tokens of its own login exactly when the session was not replaced meanwhile |
| `SessionSlot.LoginsOverRuns` | src-tauri/core/src/services/auth.rs:152-202 | until one is written onto another login's session every request carries tokens of its session's own login |
| `SessionSlot.SecondLoginLosesItsTokens` | src-tauri/core/src/services/auth.rs:192-202 | a run: the same account logs in again, and the old refresh overwrites the new login's tokens |
| `SessionSlot.SaveKeepsWhole` | src-tauri/core/src/services/auth.rs:204-212 | saving the refresh keeps the stored session readable by its own account exactly when the file is still of the account it was for and the key was read from a session of that account |
| `SessionSlot.FileOverRuns` | src-tauri/core/src/services/auth.rs:204-212 | in every run without a foreign save the stored token is the account's own, under its own key |
| `SessionSlot.ForeignTokenIsStored` | src-tauri/core/src/services/auth.rs:186-212 | a run that leaves one account's token in the other's file, under the other's key |
| `SessionSlot.UnreadableTokenIsStored` | src-tauri/core/src/services/auth.rs:186-212 | a run that leaves it there under a key the file's account does not have |
| `SessionSlot.StandaloneKeyIsStored` | src-tauri/core/src/services/auth.rs:186-212 | and one that, with a vault opened from a file meanwhile, leaves the account's own token under a key it does not have |
| `SessionSlot.Slots.StoreSession` | src-tauri/core/src/services/auth.rs:94-113 | a stored session is coherent and has its own deadline |
| `SessionSlot.Slots.StoreStandalone` | src-tauri/core/src/services/auth.rs:121-141 | a standalone session has neither client nor tokens |
| `SessionSlot.Slots.CheckFresh` | src-tauri/core/src/services/auth.rs:152-174 | the firewall and the freshness test, on the slot |
| `SessionSlot.Slots.WriteBack` | src-tauri/core/src/services/auth.rs:192-202 | tokens only where there are tokens, the deadline wherever there is a session; coherence is kept |
| `SessionSlot.Slots.EnsureFresh` | src-tauri/core/src/services/auth.rs:152-215 | `ensure_fresh_tokens` from end to end, in place, is its five steps of the protocol |
| `SessionSlot.Slots.ClearPendingIfStale` | src-tauri/core/src/services/auth.rs:240-249 | after a sweep nothing is left that is older than five minutes, and nothing younger is dropped |
| `SessionSlot.Slots.UsePending` | src-tauri/core/src/services/auth.rs:254-270 | second-factor material is handed out exactly while fresh, and dropped once it is not |
| `SshWire.SshReader.ReadU32` | src-tauri/src/ssh_agent.rs:613-620 | reads four bytes or nothing, never out of bounds, on arbitrary bytes |
| `SshWire.SshReader.ReadString` | src-tauri/src/ssh_agent.rs:622-630 | reads a string or nothing, never out of bounds; a bad length still uses up its four bytes |
| `SshWire.NumberBack` | src-tauri/src/ssh_agent.rs:598-620 | a written number reads back modulo 2^32, anywhere in a buffer (section 5 of RFC 4251) |
| `SshWire.StringBack` | src-tauri/src/ssh_agent.rs:598-630 | a written string reads back exactly when its length fits 32 bits |
| `SshWire.ReadsBack` | src-tauri/src/ssh_agent.rs:598-630 | the reader undoes any sequence of writes that fit and stops right after them |
| `SshWire.HandleList` | src-tauri/src/ssh_agent.rs:514-524 | the reply is the count and the two strings of each key |
| `SshWire.ListReplyReads` | src-tauri/src/ssh_agent.rs:514-524 | a client reads back the type byte, the number of keys and, in order, the two strings of every key |
| `SshWire.ReadSign` | src-tauri/src/ssh_agent.rs:532-539 | the three reads of a sign request, with flags defaulting to zero |
| `SshWire.SignRequestReads` | src-tauri/src/ssh_agent.rs:526-539 | a request as a client writes it is understood, with or without flags |
| `SshWire.SignRequestAnswered` | src-tauri/src/ssh_agent.rs:526-596 | a request gets a failure exactly when the agent has no such key or the guard refuses it; otherwise the client reads back that key's signature of its data, under the algorithm the flags call for |
| `SshWire.OthersAnswered` | src-tauri/src/ssh_agent.rs:499-539 | asked for its keys the agent lists them; a sign request it cannot read and a message it does not know get a failure |
| `SshWire.Serve` | src-tauri/src/ssh_agent.rs:479-512 | the loop writes one frame for each complete well-sized request, in order, and ends as the stream does |
| `SshWire.FramesAreRequests` | src-tauri/src/ssh_agent.rs:485-497 | any sequence of well-sized messages is cut out of the stream unchanged, whatever follows |
| `SshWire.StreamEnds` | src-tauri/src/ssh_agent.rs:486-497 | how the loop ends: a length of zero or above 262144 stops it, a message that breaks off or no further length closes it |
| `SshWire.OneReplyEach` | src-tauri/src/ssh_agent.rs:479-512 | each request gets exactly one reply, in order, and a client that frames the output finds them again |

## Left out

- The order of names in the sidebar: any total comparison in place of the locale's, and a stable insertion sort in place of
  the library's.
- AES, HMAC, RSA, Argon2, PBKDF2, HKDF and JSON: symbolic or injective. Nothing is claimed about cryptographic strength.
- Limits of the key derivation library itself are one arbitrary predicate over its settings.
- Hotp.CodeConstantInWindow: the MAC is any function of the counter bytes giving at least 20 bytes; parsing otpauth URIs and
  the arithmetic of JavaScript numbers above 2^53 are not modelled.
- Base32.JsAgreesWithRust: `toUpperCase` is any map of single characters to texts that is right on ASCII and leaves NEXT
  LINE alone; which bad character each decoder reports is not compared.
- Keepass.KeepassReads: lower-casing of the header is an arbitrary function.
- RenameBatch.CrashSafe: nobody else renames these folders on the server during the batch. Memory may have changed
  between planning and saving the log, but not between saving it and the last section.
- SignApproval.AnswersNameOneRequest: holds for runs shorter than 2^64 events; afterwards the 64-bit counter wraps.
- AutoLock.ScreenLocksInTime: `set_auto_lock`, the poller's test whether a lock is armed, and the decision are one step
  each, though the source takes two locks for each. Periods include however long a probe or a drop takes.
- AutoLock.NeverEarly: windows are real numbers; rounding to nanoseconds is not modelled.
- SessionSlot.SkippedRefreshHasTime: lifetime is counted from when the tokens came into the slot, as the source does, not
  from when the server issued them.
- SessionSlot.SaveKeepsWhole: reading and rewriting the stored session is one step, and always writes.
- Export.SealedOpensExactly: the lengths of the JSON, of a vault and of the rest of the file, are arbitrary functions.
- AgentStop.SignsExactly: one agent run; a restart, whose agent shares the prompt counter and the parked channels with
  connections of the old one, is not modelled.
- Hotp.ClampsOfTextExactly: what a decimal literal means is one arbitrary function, the same for both languages.
- Share.ShareKeepsView: card and identity are lists of optional fields in a fixed order instead of named fields; the same
  holds for `Export.ExportKeepsViews` and `Duplicate.ReadWritten`.
- Duplicate.ReadWritten: collection ids, which the body does not carry, are not part of the input.
- SshWire.Serve: the bytes of a connection are one finite sequence, and a handler is any function of request number and
  bytes; key loading and the sockets are not modelled.
- SshWire.SignRequestAnswered: the library's signatures are any texts of fewer than 2^31 bytes, and the guard is asked as
  a function of the key.
- Filter.ListShows: what a search matches and the order of the list are arbitrary functions.
- Preferences, the tray, the clipboard, KDBX import, password strength, breach lookup and all user interface code.
- HTTP, SQLite and file access: a request or a row write is a step that may succeed, fail or lose its reply.
