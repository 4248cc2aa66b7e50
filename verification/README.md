# A verified model of libral

libral reads the state of resources such as files, users, mounts or host entries, compares it with
a desired state, changes only what differs, and reports the changes. This project models the parts
of libral in which those promises are hard to keep, and proves for the file, host and mount providers
when their code keeps them: convergence, idempotence, safety of what is not named, and truthful
reporting. Where the code does not keep one of these on all inputs, the exact condition under which it
does is proved instead. Of the other providers, the protocols and encodings are modelled.

## How the model is built

Every part that changes something step by step is a class or a method with loops, and is proved
against a pure function that says what the new state is. The theorems are lemmas about these
functions, for all inputs, all runs and all failures of the system.

| module | models |
|---|---|
| `Core`, `Text` | values, resources and updates; trimming, splitting, numbers as text, the order of `std::map` keys |
| `Changes`, `Provider` | the change log (`Context`), pairing of states, the reported overlay and its Ruby twin |
| `FileSystem`, `FileProvider` | the filesystem as a map from paths to nodes; the file provider that changes it |
| `FileTable`, `FileTheorems`, `FileProgress`, `FileStability`, `FileSafety`, `FileReport` | the state table, the removals and the log in plain terms, where an update ends, when it succeeds and what a failure costs, stability after two passes, what a run never touches, how true the reports are |
| `Augeas`, `Host`, `HostTable`, `HostTheorems`, `HostStability`, `HostReport` | the tree of numbered entries, the provider for /etc/hosts, its simulation by a table of resources, a second run, how true the reports are |
| `Fstab`, `Mount`, `MountProvider`, `MountTable`, `MountGet`, `MountTheorems`, `MountProgress`, `MountReload`, `MountReport`, `MountStability` | the lens for fstab and mtab, the mount provider, the join of the two tables, ordering, effect and success of a run, what is loaded after it, how true the reports are, a second run |
| `Simple`, `SimpleProvider`, `SimpleReports` | the streaming reader of the `simple` protocol, the provider on top of it, what printed lines become |
| `AttrSpec` | the language of attribute types, and reading of values |
| `Accounts`, `User`, `Group` | the commands for users and groups, and how their arguments are read |
| `Json`, `JsonProvider` | resources as JSON, and updates by a script that answers in JSON |

In a few places C++ leaves open what happens. These are fixed as follows: `unknown`
(lib/src/simple_provider.cc:78) starts as false and `_seq` (lib/inc/libral/augeas/handle.hpp:120) as
some natural number; `res.back()` and `chgs.back()` on an empty vector, and reading an empty
optional or a failed result, are errors. An enum type without '[' makes lib/src/attr/spec.cc:203-204
search from one past the end of the text; here it is rejected. A `changes&` is the name under which it is kept in the log.

The system is a parameter. One update of a file makes each of its system calls at most once, so the
set of calls that fail, with what a failed removal leaves behind, covers every behaviour. A mount run
has such a set for each update, and a script is the list of its output lines and its exit status.
New files, directories and links get fixed default metadata instead of the umask.

## Where the code differs from what it promises

* A node is compared with the metadata of the one it replaces, so one pass may not be enough
  (`FileStability.OnePassSufficesIff`, with an example in `SecondPassNeeded`); two are, unless mode or
  ids are not written as they are read back: mode "660" is set on every pass
  (`ShortModeNeverSettles`). A link is made anew on every pass and settles only if owner and group are
  those of a new link (`StableAfterTwoPassesIff`).
* A directory never becomes a link, although the table in lib/src/file.cc:180-197 has that cell; with
  force it is lost in the attempt (`FileTheorems.DirectoryToLinkFails`).
* Whatever else is wrong with an update is noticed only after the old node is gone: an update that
  fails has destroyed the node, beyond its metadata, exactly if it asked for another type and was
  allowed to remove the node, or asked for another target of a link
  (`FileProgress.FailureLosesNodeIff`, with examples in `FileTheorems.ImpossibleGoalLosesNode` and
  `FileProgress.FailedLinkLost`).
* The report about a file is that of the overlay, not of the disk. It is right about `ensure`, and about
  the other attributes exactly under the conditions of `FileReport.ReportToldIff`; a link that has
  become a file is still reported with the type, target and mode of the link
  (`ReplacedLinkMisreported`).
* `force` is declared a boolean (lib/src/file.yaml:27-32) but counts only as the string "true", so a value
  of the declared type has no effect (`FileSafety.DeclaredForceIsNoForce`).
* A filesystem that is not in fstab but twice in mtab is "mounted", not "ghost"
  (`MountGet.MountedIff`, `GhostCalledMounted`), and a name that is mounted twice is not unmounted by one
  update (`MountTheorems.StateReachedIff`, `RunReachesStateIff`). The value "defined", which a comment in lib/src/mount.cc:160
  lists, is an error.
* The report about a mount does not show the defaults that were written for it, shows values that are no
  texts as they were given, and shows "present" where `get` never does
  (`MountReport.ReportToldIff`, with an example in `NewMountMisreported`).
* A ghost, which is mounted but not in fstab, can not be written: its line is looked up, not found, and
  the failed lookup is ignored (`MountProgress.SucceedsIff`).
* The mount provider never reports the state "present", and does not report missing names as absent, so
  asking for either of these is recorded as a change on every run (`MountReload.PresentLoggedEveryTime`,
  `AbsentLoggedEveryTime`; the exact condition for a quiet second run is in `SecondRunQuietIff`).
* An empty array of host aliases is reported as a change on every run (`HostTheorems.SecondRunQuietIff`,
  `HostStability.SecondRunIff`), and reported as an empty list, while `get` shows none
  (`HostReport.ReportToldIff`).
* The `simple` reader accepts an error block that is not ended (`Simple.SucceedsIff`). A line without
  ':' ends the reading with an error, but only after the callback has taken the whole line as a key and
  a value (`SimpleProvider.ColonlessLine`). Lines are not trimmed, only values are
  (`KeysAreNotTrimmed`).
* Arrays are printed in a form that `read_string` does not read (`AttrSpec.TextRoundTripIff`).
* The C++ and the Ruby overlay differ if a conflicting attribute is not logged, and for absent
  resources (`Provider.ReportsAgreeIff`, `AbsentReportsAgreeIff`).
* An unset attribute is written to JSON as the text "__none__" and read back as that text, and a
  provider that declares an attribute "ral" can not read what is written (`Json.JsonReceived`).

## Model

| member | source | states |
|---|---|---|
| Core.PrintArray | lib/src/value.cc:42-54 | the loop with its `first` flag prints the bracketed list of quoted elements |
| Text.ArrayText | lib/src/value.cc:42-54 | an array is printed as its elements in quotes, joined with ", ", in brackets |
| Text.WhitespaceIs | lib/src/simple_provider.cc:161-161 | the characters that trimming takes away |
| Text.LexIsBefore | lib/inc/libral/resource.hpp:36-36 | the order of the keys of a `std::map`: a proper prefix comes first, otherwise the smaller character where two keys first differ |
| Changes.AddDiffsExact | lib/src/context.cc:25-40 | diffing a list of attributes appends exactly one change, with both values, for each that differs, and keeps what was there |
| Changes.MaybeAddExact | lib/src/context.cc:42-62 | the old log is an unchanged prefix; the new entries are exactly those owed, with the right values, no attribute twice; for an absent resource only `ensure` is owed |
| Changes.MaybeAddInOrder | lib/src/context.cc:53-59 | the new entries are made in the order of the names of the attributes |
| Changes.MaybeAddIdempotent | lib/src/context.cc:42-62 | nothing is owed afterwards, and a second call changes nothing |
| Changes.MaybeAddGrows | lib/src/context.cc:42-62 | the log grows if and only if some attribute was owed |
| Changes.AddAbsentExact | lib/src/context.cc:143-153 | what was found is a prefix, every name is there afterwards, and what is new is absent, wanted and was missing |
| Changes.AddAbsentDistinct | lib/src/context.cc:143-153 | distinct names stay distinct |
| Changes.Context.ChangesFor | lib/src/context.cc:84-93 | the entries of a name, made empty if there were none |
| Changes.Context.Add | lib/src/context.cc:20-23 | one change more for this name, all else as before |
| Changes.Context.AddChanged | lib/src/context.cc:25-31 | records the difference of one attribute and says whether there is one |
| Changes.Context.AddAllChanged | lib/src/context.cc:33-40 | true if and only if some attribute differs; the log is that of the whole list |
| Changes.Context.Exists | lib/src/context.cc:64-70 | the search finds an entry if and only if there is one |
| Changes.Context.MaybeAddChanged | lib/src/context.cc:42-62 | the loop over the desired attributes in key order leaves `MaybeAdd` in the log, and returns true if and only if the log grew |
| Changes.Context.AddAbsent | lib/src/context.cc:143-153 | the loop appends an absent resource for each name without one |
| Provider.Create | lib/src/provider.cc:114-127 | two inserts that do not overwrite, then the changes in order, give the reported state |
| Provider.RubyResource | ruby/lib/libral/update.rb:28-32 | merge and assignments give the Ruby overlay |
| Provider.ReportIsOverlay | lib/src/provider.cc:114-127 | with changes derived from an empty log, the report is the actual state overridden by the desired one, or just absence |
| Provider.ReportOfDiffs | lib/src/provider.cc:120-124 | the same for any log that repeats desired values and misses no conflict |
| Provider.ReportsAgreeIff | ruby/lib/libral/update.rb:28-32 | C++ and Ruby report the same if and only if every conflicting attribute is logged |
| Provider.AbsentReportsAgreeIff | lib/src/provider.cc:117-119 | for absent resources they agree if and only if there is no attribute but `ensure` |
| Provider.BuildUpdates | lib/src/provider.cc:52-65 | the nested loops build the list of pairs that the lemmas below are about |
| Provider.PairSound | lib/src/provider.cc:52-65 | each update pairs states of one name, taken from both lists unless nothing was found, and no pair of the same name is left out |
| Provider.PairOnePerShould | lib/src/provider.cc:52-65 | with distinct names from `get` there is exactly one update for each desired state, in the same order |
| Provider.PairOrdered | lib/src/provider.cc:52-65 | even with repeated names, updates follow the order of the desired states and skip none |
| Provider.FoundInOrder | lib/src/provider.cc:55-60 | the updates of one desired state follow the order in which its actual states were found |
| Provider.PairAfterAddAbsent | lib/src/provider.cc:61-64 | if `get` ends in `add_absent`, the branch for a missing state is never taken |
| Provider.CollectChanges | lib/src/provider.cc:69-73 | each update is returned with the changes of its name, and the log keeps its entries |
| Provider.Find | lib/src/provider.cc:18-34 | found if exactly one resource has the name, not found if none has, an error otherwise |
| FileSystem.ModeTextRoundTrip | lib/src/file.cc:124-131 | the padded octal text of a mode is read back as the same number, up to the range of int |
| FileSystem.ModeTextDenotes | lib/src/file.cc:124-131 | the octal text of any natural number denotes that number |
| FileSystem.ModeTextWidth | lib/src/file.cc:124-131 | four characters up to 0777, five above |
| FileSystem.ModeReadIff | lib/src/file.cc:359-373 | a mode is read if and only if the text is blanks, a sign and octal digits to its end, of a value within the mask |
| FileSystem.IdRead | lib/src/file.cc:294-312 | an id is what `stoi` reads, whatever follows the digits, and negative numbers wrap around |
| FileSystem.IdTextPlain | lib/src/file.cc:159-160 | the decimal text of an id, without leading zeros |
| FileSystem.IdTextRoundTrip | lib/src/file.cc:159-160 | the text of an id is read back as the same id, up to the range of int |
| FileStability.ModeTextInjective | lib/src/file.cc:124-131 | different modes never have the same text |
| FileStability.IdTextInjective | lib/src/file.cc:159-160 | different ids never have the same text |
| FileProvider.Provider.RemoveAt | lib/src/file.cc:448-467 | a removal, with its refusals and what a failure leaves |
| FileProvider.Provider.CreateFileAt | lib/src/file.cc:470-477 | an empty file, or an error |
| FileProvider.Provider.CreateDirectoryAt | lib/src/file.cc:479-487 | a directory, or an error |
| FileProvider.Provider.UpdateMetadataOf | lib/src/file.cc:317-382 | owner, group and mode are logged and set as `UpdateMetadata` says |
| FileProvider.Provider.UpdateOwnerOf | lib/src/file.cc:323-349 | both ids are set, where an id that was not asked for stays |
| FileProvider.Provider.UpdateModeOf | lib/src/file.cc:350-380 | the mode is set, or its text is refused |
| FileProvider.Provider.UpdateContentOf | lib/src/file.cc:384-418 | the content is compared, written and logged only if it differs |
| FileProvider.Provider.UpdateTargetOf | lib/src/file.cc:420-445 | the link is removed and made anew, and its target logged if it differs |
| FileProvider.Provider.EnforceState | lib/src/file.cc:255-289 | the branches for each type |
| FileProvider.Provider.SetUpdate | lib/src/file.cc:215-292 | the whole update of one file: filesystem, log and error |
| FileProvider.Provider.SetUpdates | lib/src/file.cc:205-213 | a list of updates, up to the first failure |
| FileTheorems.LoadedState | lib/src/file.cc:106-146 | what is loaded stands for the type of the node, special files included |
| FileTable.LoadTable | lib/src/file.cc:106-161 | what is loaded of each node, or of none, attribute by attribute |
| FileTable.ClaimedState | lib/src/file.cc:217-220 | the state that any actual resource claims |
| FileTheorems.SetOneFinal | lib/src/file.cc:215-292 | the exact filesystem and log after any successful update from an accurate state, metadata included |
| FileTheorems.Converges | lib/src/file.cc:163-292 | after success the node has the type in its cell of the state table, the content or target asked for, and `ensure` is logged exactly if the type changed |
| FileTable.StateTable | lib/src/file.cc:163-292 | what stands under the name after success, for every desired `ensure`: nothing for "absent", a file, directory or link as asked for, for "present" what is there or else a file, and without one what is there |
| FileTable.ContentTable | lib/src/file.cc:384-445 | a file has the content asked for, or the old one, or none; a link leads where it was asked to |
| FileTable.OtherEnsureFails | lib/src/file.cc:287-289 | any other text is refused, whatever is there |
| FileTable.DirectoryNeedsForce | lib/src/file.cc:233-240 | a directory that is to become something else is refused if and only if `force` is not the text "true"; with it, it can be removed |
| FileTable.RemovalTakesAll | lib/src/file.cc:448-467 | after a directory was removed or replaced nothing below it is left, at any depth, and every other path is as before |
| FileTable.OthersUntouched | lib/src/file.cc:215-292 | every other successful update leaves all other paths as they were |
| FileTable.LogTable | lib/src/file.cc:244-253 | the log of a successful update entry by entry and in order: the new type coming from "absent", the target, owner, group, mode, the content |
| FileProgress.SucceedsIff | lib/src/file.cc:215-292 | if the system refuses nothing, an update succeeds if and only if what it asks for is possible: a legal goal, a node that may be removed, readable metadata, content and target, and no link in place of a directory |
| FileProgress.RunSucceedsIff | lib/src/file.cc:205-213 | a run over distinct, non-nested paths succeeds if and only if each update is possible at its start |
| FileProgress.MetadataSucceedsIff | lib/src/file.cc:317-382 | metadata can be set if and only if each piece that differs can be read |
| FileProgress.FailureLosesNodeIff | lib/src/file.cc:235-289 | an update that is not possible fails; the node it found is no longer there, with the same type, content and target, if and only if another type was asked for and the node might be removed, or another target of a link; a link of which a target is asked is in any case left as a new one with default metadata |
| FileProgress.FailedLinkLost | lib/src/file.cc:428-442 | a link that is to get another target and an owner that is no number: the update fails and has replaced the link |
| FileTheorems.DirectoryToLinkFails | lib/src/file.cc:428-433 | a directory never becomes a link: untouched without force, lost with it |
| FileTheorems.ImpossibleGoalLosesNode | lib/src/file.cc:244-289 | an instance of `FileProgress.FailureLosesNodeIff`: an illegal goal, or a link without target, in place of a file or link |
| FileStability.StableAfterTwoPassesIff | lib/src/file.cc:215-292 | after two successful passes a third changes and logs nothing if and only if the metadata asked for is canonical and, for a link, that of a new link |
| FileStability.QuietPassSucceeds | lib/src/file.cc:317-382 | such a third pass succeeds if the system refuses nothing |
| FileStability.OnePassSufficesIff | lib/src/file.cc:317-323 | one pass is enough if and only if, for a file or directory, each attribute that differs from the node that was found is written as it is loaded and each that does not is what the resulting node starts with, or, for a link, owner and group are those of a new link |
| FileStability.SecondPassNeeded | lib/src/file.cc:317-323 | a link with mode 0777 that is to become a file with mode "0777": the first pass leaves the default mode, the second is not quiet |
| FileStability.ShortModeNeverSettles | lib/src/file.cc:350-379 | with mode "660", a legal mode, no later pass over a file or directory is ever quiet |
| FileStability.MetaSettles | lib/src/file.cc:317-382 | after a pass on a node of the right type, canonical metadata is what was asked for |
| FileSafety.SetOneSafe | lib/src/file.cc:215-292 | an update, successful or not, changes nothing outside its path, and without force removes no directory |
| FileSafety.RejectedUntouched | lib/src/file.cc:235-240 | a directory that is to become something else without force: an error, and nothing touched or logged |
| FileSafety.DeclaredForceIsNoForce | lib/src/file.cc:233-240 | `force`, read by its declared type boolean from any text, never allows a directory to be removed |
| FileSafety.SetAllSafe | lib/src/file.cc:205-213 | a run over distinct, non-nested paths, even one that fails half-way, changes nothing outside them, and without force removes no directory |
| FileSafety.SetAllConverges | lib/src/file.cc:205-292 | if the run succeeds, each update has reached its own cell of the table, and other logs are as before |
| FileReport.ReportToldIff | lib/src/provider.cc:114-127 | the report after an update equals what is loaded then: always for `ensure`, and for type, target, mode, owner and group exactly under the stated conditions on type and metadata |
| FileReport.AbsenceTold | lib/src/provider.cc:117-119 | the report of an update that removes a node is the absent resource that is loaded then |
| FileReport.ReplacedLinkMisreported | lib/src/provider.cc:120-124 | a link that has become a file is reported with its old type, target and mode |
| Augeas.Tree.Match | lib/src/augeas/node.cc:53-56 | the labels of all entries with this value, in order |
| Augeas.Tree.MakeNodeSeqNext | lib/src/augeas/handle.cc:157-164 | a label that no call has given before |
| Augeas.LabelsAfterAppend | lib/inc/libral/augeas/handle.hpp:119-120 | a counted label is new in the tree, so an entry under it goes to the end and labels stay unique |
| Augeas.Tree.Rm | lib/src/augeas/node.cc:45-47 | the entry with this label is gone |
| Augeas.Tree.Erase | lib/src/augeas/node.cc:41-43 | the entry has no children |
| Augeas.Tree.Set | lib/src/augeas/node.cc:24-30 | a child is set or added; nothing happens if several match |
| Augeas.SetAfterWritten | lib/src/augeas/node.cc:24-30 | setting a field that is not there yet appends it to what has been written |
| Augeas.OneMatch | lib/src/augeas/node.cc:97-106 | a single match splits the table in the one place where the value stands |
| Host.WriteThenRead | lib/src/host.cc:45-59 | reading an entry after writing it shows the overlay: ip, aliases in order, comment, an empty alias array as unset |
| Host.Provider.Base | lib/src/host.cc:19-38 | the only entry of this name, a new one if there is none, an error if there are more |
| Host.Provider.UpdateBase | lib/src/host.cc:89-107 | the entry is rewritten as `SetPresent` says |
| Host.Provider.SetUpdate | lib/src/host.cc:118-135 | table, labels, log and error after one update |
| Host.Provider.SetUpdates | lib/src/host.cc:109-116 | a list of updates and the final save |
| Host.Provider.Get | lib/src/host.cc:61-87 | the resources of all entries in order, absent ones for missing names, an error exactly for a bad entry |
| HostTable.FieldsInOrder | lib/src/host.cc:95-106 | a line holds the address, the name, the aliases and the comment, in this order |
| HostTable.StateTable | lib/src/host.cc:118-135 | what `get` lists of a name after a run, for every desired `ensure`: the overlay once for "present", nothing for "absent", and without one what was there |
| HostTable.OtherEnsureFails | lib/src/host.cc:132-134 | any other text is refused |
| HostTable.LogTable | lib/src/host.cc:120-128 | the log of a successful update, entry by entry |
| HostTheorems.SetOneSim | lib/src/host.cc:118-135 | a successful update does to what `get` shows what `TableSet` does to a list of resources |
| HostTheorems.TableSetExact | lib/src/host.cc:118-135 | `TableSet` leaves all other names alone and settles its own |
| HostTheorems.RunShowsOverlays | lib/src/host.cc:109-135 | after a run over distinct names, `get` shows exactly the overlay for each present update, nothing for each absent one, and all others unchanged in order |
| HostTheorems.SetOneSucceedsIff | lib/src/host.cc:118-135 | an update succeeds if and only if its goal is legal and its name does not stand on several lines |
| HostTheorems.RunSucceedsIff | lib/src/host.cc:109-114 | before the final save, a run over distinct names succeeds if and only if each update could be carried out at its start |
| HostTheorems.LogIsWritten | lib/src/host.cc:120-128 | the log of an update that ends in "present" is the difference of `ensure` and of the three properties |
| HostTheorems.SecondRunQuietIff | lib/src/host.cc:118-135 | for one update that ends in "present": a second run shows the same and logs nothing if and only if the desired state reads back as written; an empty alias array does not |
| HostStability.SecondRunIff | lib/src/host.cc:109-135 | a second run of a whole list, absent updates included, succeeds and shows the same, and records nothing for an update if and only if its desired state reads back |
| HostStability.PairsAgain | lib/src/provider.cc:47-65 | the updates of the second run are those of the first, from what it has left |
| HostTheorems.ReportIsWhatGetShows | lib/src/provider.cc:114-127 | the reported resource is what the next `get` shows, except that a new entry is reported without "target" |
| HostReport.ReportToldIff | lib/src/provider.cc:114-127 | the report after a run equals what `get` shows then: `ensure`, ip and comment if and only if the desired value is a text or unset, aliases if and only if it is a filled list or unset, the target if and only if the name was there or its only value was asked for |
| HostReport.AbsenceToldIff | lib/src/provider.cc:117-119 | an update that ends in "absent" is reported as absent if and only if the desired `ensure` is a text or unset |
| Fstab.ParseOfPrint | data/lenses/mount_fstab.aug:28-35 | a record printed with any separators is parsed as the same record, for each length of the optional chain |
| Fstab.PrintOfParse | data/lenses/mount_fstab.aug:17-35 | every line that parses is a printed record: the lens accepts exactly what it can write |
| Fstab.ChildrenRoundTrip | data/lenses/mount_fstab.aug:28-35 | the children of a record hold just that record |
| Fstab.FromChildrenExact | data/lenses/mount_fstab.aug:28-35 | children that the lens accepts are those of a well-formed record |
| Fstab.ReloadOfSave | data/lenses/mount_fstab.aug:37-37 | a table that was saved and loaded has the same entries, records renumbered |
| MountProvider.Provider.Collect | lib/src/mount.cc:67-108 | the two loops over fstab and mtab build the map of resources |
| MountProvider.Provider.Get | lib/src/mount.cc:63-115 | the list in key order, an error exactly for a bad entry |
| MountProvider.Provider.WriteBase | lib/src/mount.cc:117-135 | a full entry, or an error for a missing device or type |
| MountProvider.Provider.RemoveBase | lib/src/mount.cc:196-199 | the entries of this name are gone |
| MountProvider.Provider.Save | lib/src/mount.cc:219-221 | the table is saved if it fits the lens, otherwise an error |
| MountProvider.Provider.MountNow | lib/src/mount.cc:210-217 | save first, then `mount` unless mounted |
| MountProvider.Provider.UnmountNow | lib/src/mount.cc:201-208 | save first, then `umount` unless unmounted or absent |
| MountProvider.Provider.SetUpdate | lib/src/mount.cc:146-188 | both tables, the trace of commands, the log and the error after one update |
| MountProvider.Provider.SetUpdates | lib/src/mount.cc:137-144 | a list of updates and the final save |
| MountGet.GetIsJoin | lib/src/mount.cc:63-115 | for any two tables the names come in lexicographic order, are unique and exactly those of both, and each resource has the attributes of its first line and its status |
| MountGet.MountedIff | lib/src/mount.cc:94-103 | when `get` reports a name as "mounted" and when as "ghost", repeated lines of mtab included |
| MountGet.GhostCalledMounted | lib/src/mount.cc:95-97 | `get` calls a name that is twice in mtab and not in fstab mounted, and a ghost if it is there once |
| MountGet.WritesFullRecord | lib/src/mount.cc:128-134 | the children that are written are the full record of the lens with its six fields |
| MountGet.WrittenReadsBack | lib/src/mount.cc:46-61 | reading such an entry gives the overlay, with defaults for what was not given |
| MountTable.RecordShown | lib/src/mount.cc:46-61 | what is shown of a record of any length, with the defaults for the fields that it leaves out |
| MountTable.FieldClasses | data/lenses/mount_fstab.aug:17-34 | the character classes of the fields |
| MountTable.RecordClasses | data/lenses/mount_fstab.aug:28-35 | which field has to be of which class, for each length of the optional chain |
| MountTable.StateTable | lib/src/mount.cc:146-188 | what `get` lists of a name after a run, for every desired `ensure`: mounted, unmounted, nothing, for "present" as it was mounted before, and without one as before |
| MountTable.OtherEnsureFails | lib/src/mount.cc:184-186 | any other text is refused |
| MountTable.CommandsRun | lib/src/mount.cc:169-217 | which command a successful update has run, if any, with which fstab on disk, and what is saved in the end |
| MountTable.LogTable | lib/src/mount.cc:164-193 | the log of a successful update, entry by entry |
| MountTheorems.MountsAfterSaving | lib/src/mount.cc:137-221 | over any run, failed or not, each `mount NAME` finds NAME in the saved fstab |
| MountTheorems.SavedReloads | lib/src/mount.cc:219-221 | what is saved always loads again as the same entries |
| MountTheorems.SetOneEffect | lib/src/mount.cc:146-221 | how often the name stands in either table after an update, and that all other lines stay as they are |
| MountReload.SetOneWrites | lib/src/mount.cc:117-135 | an update that is not for "absent" leaves an entry with exactly the children it has to write |
| MountTheorems.SetOneReaches | lib/src/mount.cc:146-188 | the status after one update |
| MountTheorems.StateReachedIff | lib/src/mount.cc:146-217 | an update reaches the state it asks for if and only if that is "mounted" or the name was mounted at most once |
| MountTheorems.RunReachesStateIff | lib/src/mount.cc:137-221 | the same for each update of a whole run |
| MountTheorems.RunReachesStates | lib/src/mount.cc:137-221 | after a run over distinct names, the saved fstab and mtab give each name the state asked for, "present" keeps the mount status, and other lines are unchanged in order |
| MountReload.RunReloads | lib/src/mount.cc:63-221 | after a run, the saved fstab loads again, and `get` shows for each name exactly the overlay with its defaults and the state reached, nothing for an absent one, and for all other names what it showed before |
| MountReload.SecondRunQuietIff | lib/src/mount.cc:146-194 | a second run from what is loaded then records nothing for an update if and only if it asks for no state or for one that is reported and reached, and only for texts; one for "absent" must not say so |
| MountStability.SecondRun | lib/src/mount.cc:137-221 | a second run from what is loaded then succeeds if nothing fails from outside, records nothing exactly under these conditions, and `get` shows the same of every name unless a name to be unmounted or absent was mounted twice |
| MountStability.RepeatsArePaired | lib/src/provider.cc:47-65 | the updates of the second run are those of the first, from what `get` shows |
| MountReload.EachRecords | lib/src/mount.cc:164-193 | after a run with a new log, each update has recorded its own differences |
| MountReport.ReportToldIff | lib/src/provider.cc:114-127 | the report after a run equals what `get` shows then: the state if and only if it was reached and is one that `get` shows, each field if and only if the overlay has it as a text, the target if and only if the name was there or its only value was asked for |
| MountReport.AbsenceToldIff | lib/src/provider.cc:117-119 | a name that is to be absent is reported as absent if and only if that was said |
| MountReport.NewMountMisreported | lib/src/provider.cc:120-124 | a new mount without options is shown with the default ones and reported without any |
| MountReload.LogIsWritten | lib/src/mount.cc:164-193 | what an update records in a new log |
| MountReload.PresentLoggedEveryTime | lib/src/mount.cc:164-167 | asking for "present" is a change whatever the state is |
| MountReload.AbsentLoggedEveryTime | lib/src/mount.cc:164-167 | asking for "absent" of a name that is nowhere is a change |
| MountProgress.SucceedsIff | lib/src/mount.cc:146-221 | if nothing fails from outside, an update succeeds if and only if its goal is legal, its fields are given, a resource that is there has exactly one line, and a line to be mounted is well formed |
| MountProgress.RunSucceedsIff | lib/src/mount.cc:137-221 | a run over distinct names succeeds if and only if every update is feasible at its start; a malformed line makes the last save fail |
| Simple.Reader.OutCallback | lib/src/simple_provider.cc:142-173 | one line: either reading goes on from an equivalent state, or the result is that of the whole output |
| Simple.RunAction | lib/src/simple_provider.cc:128-185 | the streaming reader equals the parse of the whole list of lines, in result and effect |
| Simple.SucceedsIff | lib/src/simple_provider.cc:128-185 | an action fails exactly on a bad header, a line without ':', an error of the callback, a completed error block, or a failed command |
| Simple.FirstFailureDecides | lib/src/simple_provider.cc:172-184 | nothing after the first failure has an effect |
| SimpleProvider.Instances | lib/src/simple_provider.cc:104-126 | the listed resources, or the error of the action |
| SimpleProvider.Find | lib/src/simple_provider.cc:75-102 | the resources found, none after `ral_unknown`, or the error of the action |
| SimpleProvider.ListRoundTrip | lib/src/simple_provider.cc:104-185 | any list of resources, printed as text in the documented format with attributes in any order, is read as the same list |
| SimpleReports.FindRoundTrip | lib/src/simple_provider.cc:75-102 | a resource that is printed as text is the one that is found |
| SimpleReports.UnknownLine | lib/src/simple_provider.cc:84-86 | `ral_unknown` is remembered, wherever it stands |
| SimpleReports.ErrorMessage | lib/src/simple_provider.cc:148-164 | the message of a reported error is the value of its first line followed by all lines up to "ral_eom" |
| SimpleReports.ValueBeforeNameFails | lib/src/simple_provider.cc:108-120 | a value before any name, or an old value before any change, is an error and ends the reading |
| SimpleProvider.ColonlessLine | lib/src/simple_provider.cc:155-170 | a line without ':' is an error, but the callback has taken it as key and value before, unless it is "ral_error" |
| SimpleProvider.KeysAreNotTrimmed | lib/src/simple_provider.cc:159-161 | blanks before a line become part of its key and leave its value alone |
| SimpleProvider.BuildArgs | lib/src/simple_provider.cc:46-51 | the name and one argument for each attribute that is to change, in key order |
| SimpleReports.ArgumentsExact | lib/src/simple_provider.cc:46-51 | the arguments, character by character, for exactly the attributes that are to change, in the order of their names |
| SimpleProvider.RunsIff | lib/src/simple_provider.cc:52-53 | the script is run if and only if some attribute is to change |
| SimpleProvider.SetUpdate | lib/src/simple_provider.cc:24-59 | one turn of the loop: whether the script is run, the error, and the log with reported and derived changes |
| SimpleReports.ReportsAreLogged | lib/src/simple_provider.cc:29-44 | any list of changes that a script prints, each with its new value and with or without its old one, is what the log has gained |
| SimpleReports.WrongNameFails | lib/src/simple_provider.cc:33-37 | a script that names another resource fails, and what it has reported before stays |
| SimpleReports.DeriveLine | lib/src/simple_provider.cc:31-32 | `ral_derive` asks for the other differences if and only if its value is "true" |
| SimpleReports.FailureDerivesNothing | lib/src/simple_provider.cc:54-58 | a command that fails derives nothing, one that succeeds and asks for it does |
| SimpleProvider.SetUpdates | lib/src/simple_provider.cc:21-62 | the loop over the updates, up to the first failure |
| SimpleProvider.RunLogsEach | lib/src/simple_provider.cc:21-62 | after a run over distinct names, the log of each name is what its own script has left there |
| SimpleProvider.DeriveCovers | lib/src/simple_provider.cc:57-58 | with `ral_derive` no difference is left unrecorded, whatever the script has reported |
| SimpleProvider.DeriveOnly | lib/src/simple_provider.cc:31-58 | an answer of just `ral_derive: true` leaves the derived differences |
| AttrSpec.Create | lib/src/attr/spec.cc:189-230 | the loops over options and characters accept what `CreateSpec` accepts |
| AttrSpec.PrintType | lib/src/attr/spec.cc:93-105 | the loop with its `first` flag prints the type |
| AttrSpec.EnumAcceptedIff | lib/src/attr/spec.cc:201-226 | an enum is accepted if and only if, without whitespace, it is "enum", anything but '[', a bracketed list of at least one option of lower case letters and digits, and anything |
| AttrSpec.KeywordsAcceptedIff | lib/src/attr/spec.cc:195-200 | the three types without options are accepted under just these names |
| AttrSpec.WhitespaceIgnored | lib/src/attr/spec.cc:189-192 | whitespace anywhere makes no difference |
| AttrSpec.TypeRoundTrip | lib/src/attr/spec.cc:177-231 | every accepted type prints as a text that is read as the same type |
| AttrSpec.PrintedIsRead | lib/src/attr/spec.cc:47-105 | every valid type is read from its printed form |
| AttrSpec.ReadArray | lib/src/attr/spec.cc:66-78 | the loop over the pieces gives the trimmed list or rejects it |
| AttrSpec.BooleansRead | lib/src/attr/spec.cc:52-59 | "true" and "false" in any case are read, and nothing else |
| AttrSpec.ReadArrayOfJoin | lib/src/attr/spec.cc:66-78 | reading inverts joining with commas, with blanks around the pieces |
| AttrSpec.ReadArrayRejectsIff | lib/src/attr/spec.cc:66-78 | rejected are exactly the texts that are not empty and have a blank piece |
| AttrSpec.TextRoundTripIff | lib/src/value.cc:42-54 | a printed value is read back if and only if its type is not an array |
| Accounts.ReadPropArgs | lib/src/user.cc:118-127 | the options built for a list of attributes are read as these attributes and values |
| Accounts.PropsLogged | lib/src/user.cc:118-127 | those are the changes that are logged |
| Accounts.CommaListIff | lib/src/user.cc:138-148 | a comma list is read as the list it was made of if and only if no element holds a comma and it is not just one empty element |
| User.BuildArgs | lib/src/user.cc:118-160 | the loops build the arguments and log the differences |
| User.SetUpdate | lib/src/user.cc:96-181 | the command, the log and the error of one update |
| User.CommandSaysTheLog | lib/src/user.cc:118-170 | the arguments, read back, name the user; they ask for exactly the changes that were logged if and only if no -G is given or its list can be told from its text; useradd is run if and only if `ensure` changed; -m and -M are as promised |
| User.GroupsGivenIff | lib/src/user.cc:129-149 | -G is given if and only if a list of groups is asked for that differs from the actual one as a set |
| User.RemovalRunsIff | lib/src/user.cc:171-176 | a user that is to be absent is deleted with -r if and only if it is there, and only that is logged |
| User.PresentLogsAll | lib/src/user.cc:107-170 | the log of a user that is to be present, entry by entry, and which of useradd and usermod is run |
| User.OtherStatesRunNothing | lib/src/user.cc:114-180 | any other state is logged and not acted upon; "role" is an error |
| User.UnsaidStateIsKept | lib/src/user.cc:111-116 | without a desired state, a user stays in the state it is in |
| User.PresentRunsIff | lib/src/user.cc:160-170 | a command is run if and only if the log is not empty, and the log grows if and only if something differs |
| User.SettledUserIsLeftAlone | lib/src/user.cc:96-181 | a user that is as it was wanted is neither logged nor touched |
| Group.SetUpdate | lib/src/group.cc:67-112 | the command, the log and the error of one update |
| Group.CommandSaysTheLog | lib/src/group.cc:84-103 | the arguments, read back, ask for exactly the changes that were logged; groupadd is run if and only if `ensure` changed |
| Group.PresentRunsIff | lib/src/group.cc:93-103 | a command is run if and only if the log is not empty, and the log grows if and only if the group is new or its gid differs |
| Group.RemovalRunsIff | lib/src/group.cc:104-110 | a group that is to be absent is deleted if and only if it is there, and only that is logged |
| Group.PresentLogsAll | lib/src/group.cc:73-103 | the log of a group that is to be present, entry by entry, and which of groupadd and groupmod is run |
| Group.OtherStatesRunNothing | lib/src/group.cc:80-111 | any other state is logged and not acted upon |
| Group.UnsaidStateIsKept | lib/src/group.cc:77-82 | without a desired state, a group stays in the state it is in |
| Group.OnlyGidAndEnsureMatter | lib/src/group.cc:67-112 | no other attribute has an influence: members are never set |
| Json.ResourceToJson | lib/src/emitter/json_emitter.cc:140-149 | name, attributes in key order and "ral" are set one by one |
| Json.ResourceFromJson | lib/src/json_provider.cc:210-228 | the loop over the keys gives what `ResourceFrom` says |
| Json.ValueIsRead | lib/src/attr/spec.cc:126-162 | a value that was written is read as itself, an unset one as its marker |
| Json.ValuesRead | lib/src/attr/spec.cc:135-161 | what each kind of JSON value is read as: numbers as booleans, only arrays of strings, no objects |
| Json.RalSays | lib/src/emitter/json_emitter.cc:147-156 | the extra entry holds the type name and the name of the provider |
| Json.ReadIsExact | lib/src/json_provider.cc:210-228 | reading succeeds if and only if there is a name and each declared attribute is readable, and gives exactly these attributes |
| Json.JsonReceived | lib/src/emitter/json_emitter.cc:140-183 | what arrives of any resource: its declared attributes, unset ones as "__none__", or an error if "ral" is declared |
| Json.JsonRoundTripIff | lib/src/json_provider.cc:210-228 | the same resource arrives if and only if all attributes are declared and set and "ral" is not declared |
| JsonProvider.ImportChange | lib/src/json_provider.cc:79-109 | one change object is added to the log of its name, up to the first error |
| JsonProvider.Derive | lib/src/json_provider.cc:114-120 | the loop over the updates derives for names without a log |
| JsonProvider.Set | lib/src/json_provider.cc:66-126 | the log and the error after the answer of a script |
| JsonProvider.ImportExact | lib/src/json_provider.cc:73-111 | the import succeeds if and only if all objects are well formed, and adds to each name just what was reported for it, in order |
| JsonProvider.DeriveExact | lib/src/json_provider.cc:114-120 | deriving touches exactly the names without a log, and the first update of a name decides |
| JsonProvider.SetLogsExactly | lib/src/json_provider.cc:66-126 | a fresh log holds what was reported for each name that was mentioned, the derived differences for the other updates if asked for, and nothing else |
| JsonProvider.DerivedReportIsOverlay | lib/src/json_provider.cc:114-120 | if all is derived, the report is the overlay |
| JsonProvider.ChangesRoundTrip | lib/src/json_provider.cc:87-109 | changes of declared attributes that a script writes as an object are imported as they were |

## Left out

* System calls, processes, remote targets and uploads: they succeed or fail as parameters. A write
  that fails after the file was opened is not modelled.
* How a target splits the output of a script: `SimpleProvider.LinesOf` takes it apart at line ends.
* `fs::absolute` and the normalisation of paths: names of files are taken as absolute paths.
* `fs::last_write_time` (lib/src/file.cc:135) throws for a link that leads nowhere, so a pass over such a
  link ends before `set` is reached. The model loads every link.
* Modification and change times and checksums of files, the umask, and the bits that `lchown` clears.
* Changing the mode through a link: theorems about files ask for no mode on links.
* Path expressions of Augeas beyond finding entries by the value of a field, in particular names that
  hold a quote; labels and fields are datatypes.
* The lens modules `Sep` and `Util`, which are not part of this model: a separator is one or more
  blanks or tabs, and a comment may stand at the end of a line after a '#'.
* The layout of lines that are not changed: Augeas keeps their separators, the model of the table
  prints each entry in one default layout, and `ReloadOfSave` is about entries, not about blanks.
* Error messages, logging, localisation.
* YAML metadata (`prov/spec.cc`, `mruby.hpp`), the registry of providers, attribute kinds.
* Attributes named "name": libral throws an exception when one is accessed.
* Listing users and groups: `getpwent`, `getgrouplist` and `getgrent` mix in primary groups, so the
  state of a user after a command is taken to be the one asked for.
* Lists of updates for users and groups: they are handled one by one until the first failure.
* The JSON document that is passed to a script on its standard input, its text form, and duplicate
  error texts in its answer; integers beyond the range of int.
* Package and service scripts, the command line, the C, Go and Ruby bindings apart from
  `Update#resource`.
- FileTheorems.LoadedState: also says what is loaded of a link that leads nowhere, where libral throws.
- FileStability.QuietPassSucceeds: does not count the exception for a link that leads nowhere as a failure.
- AttrSpec.Create: rejects an enum type without '[', for which C++ leaves open what happens.
- AttrSpec.EnumAcceptedIff: counts that case as rejected.
- User.SettledUserIsLeftAlone: the state after the command is the overlay of the two states, because
  what useradd and usermod do is not part of libral.
