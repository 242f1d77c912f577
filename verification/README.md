# Verified model of the platform's server, shells and tools

A Dafny model of five parts of the platform, with proofs. Run
`dafny verify dfyconfig.toml` in this directory to verify all of it.

**The server** (`DeviceRegistry`, `Descriptors`, `Search`, `Processes`,
`Terminals`, `Servers`, `AddressSpaces`, `SystemCalls`). `Process`, `Server`, `FdEntry` and `Devices` are
classes whose methods update their fields as the program does. Each method is
proved equal to a function on values (`Descriptors`, `DeviceRegistry`,
`Processes`), and the laws are proved about those functions. On top of the same
functions `AddressSpaces` is a transition system: every client runs in its own
forked copy of the server's memory, so that a state is a map from live POSIX
pids to address spaces, each with its own process list and descriptor tables.
`SystemCalls` is the entry of a system call into the server, and shows that what
it does to the objects is a step of that system.
Answers of the kernel, of malloc, of dlopen and of fork are parameters and may
all be failures.

**The shell's paths** (`CStrings`, `SlashPaths`, `ShellPaths`, `ShellDisplays`,
`ShellSessions`). The NUL-terminated buffer is an array that is rewritten in
place; array bounds are checked, so that no read or write leaves it. Paths are
specified by their components (POSIX.1-2017 Base Definitions, sections 3.271
and 4.13).

**factor** (`Primes`, `Factor`). The loop runs in explicit unsigned 64-bit
arithmetic. The square root is any function that is at least the integer square
root on 64-bit numbers and does not reach 2^64 - 1.

**dshell** (`Texts`, `Tokens`, `TokenGrammar`, `TokenLaws`, `Commands`,
`JobStrings`, `JobStarts`). The
tokenizer declares four delimiters but a count of three; every law is proved
for counts of three and of four.

**Last occurrence search** (`Search`), which derives process names from paths.

## What the proofs found

- System calls are attributed to the right process throughout a run if and only
  if no fork of it is handed a POSIX pid already recorded in the forking address
  space; a kernel that never reuses pids is enough. Dead ancestors stay on record,
  so that with an ordinary kernel, which only avoids live pids, a child can be
  taken for a dead ancestor (`ReusedPidIsMisattributed`).
- The question at src/server/process.cpp:379 is answered: a server descriptor is
  unique among the local slots of all processes of an address space
  (`Descriptors.CloseDropsOrFails`, `AddressSpaces.RunsKeepTables`).
- Exec leaks a server descriptor exactly when a close it attempts is refused.
- A device's opens are counted also when memory for the descriptor fails, and no
  close counts them down.
- Displaying a path and resolving it again leads to the same place, with a reduced
  home directory, exactly when the home directory is not a byte prefix of the path
  or is one up to the end of a component. With HOME=/a, the directory /ab is shown
  as ~/b. With any other absolute home directory the exact condition is one on
  lengths (`ShellDisplays.CutsRightly`): the superfluous slashes of HOME=/abc/
  take letters off, so that the path /abc/ is shown as ~/bc.
- An empty HOME makes the move write behind the buffer, one longer by two or more
  than the reduced path makes its length wrap around, and HOME=// for the path //
  leaves the string without terminator. With an absolute HOME no directory of a
  `cd` session meets these.
- Splitting an input into jobs and tokenizing the jobs again gives its tokens
  back exactly when every token is plain and no splitter ends the list: the jobs
  of `a&` are those of `a`. Tokens of inputs without quotes are always plain, and
  a whole line, whose newline stays in the last token, never ends in a splitter.
- dshell keeps the arguments of a job and never passes them on: `popen` gets the
  name alone, so that `ls -l` starts `ls`. What is started is what was typed
  exactly when every job is one word without a blank.
- A job made of no token, or of blank ones only, cannot be started: `strtok` finds
  nothing in it and the job is constructed from NULL. The jobs of a line without
  quotes can all be started exactly when it has a token, does not begin or end
  with `&` and has no two of them in a row; an empty line already cannot. With the
  newline counted as a delimiter a line may be empty or end with `&`.
- With the delimiter count as written, a newline stays in its token. At the end
  of a line this does no harm, for each job is still read as the words of its part
  of the line.
- The guard on what factor's loop leaves can only matter for a square root
  routine that, for the largest prime factor p, answers p or more; with an exact
  root the remainder is always the largest prime.

## Model

| member | source | states |
|---|---|---|
| AddressSpaces.CallsAreAttributedToTheirCaller | src/server/server.cpp:28-50 | in every state of every run in which no fork meets a recorded pid, exactly one entry of a client's list carries its POSIX pid, it is the process whose code runs there, and the first-match scan finds it; the server's own space attributes calls to nobody |
| AddressSpaces.AlwaysRightIffNoPidMet | src/server/server.cpp:28-50 | in every space after every prefix of a run the scan finds the process whose code runs there, if and only if no fork of the run was handed a pid that the forking space had on record |
| AddressSpaces.ChildAttributedIffUnrecorded | src/server/server.cpp:169-181 | a child's calls are attributed to it if and only if its pid was not on record in the space that forked |
| AddressSpaces.NeverReusedIsEnough | src/server/server.cpp:28-50 | a kernel that never hands out a pid twice never meets a recorded one, in any run |
| AddressSpaces.ReusedPidIsMisattributed | src/server/server.cpp:28-50 | a run, allowed by a kernel that only avoids live pids, in which a call is attributed to a dead ancestor |
| AddressSpaces.RunsKeepInv | src/server/server.cpp:158-309 | the invariant behind attribution holds after every such run of start, fork, exec, chdir, open, close, exit and failures |
| AddressSpaces.StepKeepsInv | src/server/server.cpp:158-309 | each single step keeps it |
| AddressSpaces.PidsAreStable | src/server/server.cpp:158-309 | over any stretch of a run every PID of a surviving space keeps naming the entry it did, under the same POSIX pid, and a client that makes no call finds its space exactly as it left it |
| AddressSpaces.PidsGrowDownTheTree | src/server/server.cpp:165-183 | after every run, whatever pids the kernel reuses, every client's PID exceeds those of all its ancestors, and the PIDs its forks returned are increasing, above its own, and indexes of its list |
| AddressSpaces.NextChildIsNew | src/server/server.cpp:165-183 | in a space so ordered the next child's PID exceeds those of the forking program and all its ancestors and differs from every sibling's |
| AddressSpaces.CousinsMayCollide | src/server/server.cpp:166-167 | a run in which two live clients have the same PID |
| AddressSpaces.ForkHandsOver | src/server/process.cpp:268-335 | a child has its parent's name, path, directory and state, its environment if there was memory, its own pid and no descriptors; older entries are unchanged on both sides |
| AddressSpaces.ExecHandsOver | src/server/server.cpp:209-233 | exec keeps PID and POSIX pid, the old environment and the old directory if there is memory to copy them, takes the name behind the last slash of the path, leaves no descriptors, and touches no other process |
| AddressSpaces.CallTouchesOnlyItsCaller | src/server/server.cpp:186-309 | no call changes what descriptors mean for another process |
| AddressSpaces.ChDirMeans | src/server/server.cpp:255-262 | chdir changes the directory of its caller if memory lasts, and nothing else |
| AddressSpaces.StartHandsOver | src/server/server.cpp:371-381 | a started program goes on with a copy of the server's tables and list, in which it alone is marked as running, under its pid |
| AddressSpaces.ServerStepsHandOver | src/server/server.cpp:343-353 | a program listed has no descriptors and changes no other; a device is registered under a new name if memory lasts |
| AddressSpaces.SpacesAfterStep | src/server/server.cpp:777-790 | only starts and forks make an address space, and only an exit ends one, that of its caller |
| AddressSpaces.RunsKeepTables | src/server/server.cpp:608-775 | in every run, whatever fails, every address space has tables in which live entries know their index, have count one and stand for an object, slots hold distinct live descriptors, file entries have distinct kernel descriptors, and no device has more live descriptors than its recorded opens; a close that the kernel refuses is taken to leave its descriptor open, which POSIX does not specify after EINTR or EIO |
| AddressSpaces.RunsKeepTablesExact | src/server/server.cpp:608-775 | in every run whose closes succeed, live entries and occupied slots correspond one to one and the kernel descriptors from open are those of the live file entries |
| SystemCalls.ServerSysCall | src/server/server.cpp:28-50 | the caller is the first process recorded under the pid; without one nothing happens, and with one its request is served and answered |
| SystemCalls.Serve | src/server/server.cpp:186-309 | for every request, the objects then hold exactly the process list and tables that the transition system's call leads to (in a forked child, those of the child's copy), the caller is answered accordingly, and the invariant is kept |
| SystemCalls.ServedIsAStep | src/server/server.cpp:186-309 | so serving a request is an enabled step of the transition system, whenever the kernel gives a fork's child a pid no live process has |
| SystemCalls.ForkIsAnswered | src/server/server.cpp:158-184 | a failed fork changes nothing and is answered -1; a successful one is answered 0 in the child and in the parent a PID above 0: its newest child, the index of the child's record in the child's copy, what the child is answered for its own PID, and where calls of the child are attributed if its pid was new |
| SystemCalls.OpenIsAnswered | src/server/server.cpp:285-295 | an open is answered the caller's lowest free descriptor, then bound to the device named under /dev or to the file opened, exactly when that can be; otherwise it is negative and nothing is bound |
| SystemCalls.CloseIsAnswered | src/server/server.cpp:296-304 | a close is answered 0 and unbinds the descriptor exactly if that stands for a device or the kernel agrees; otherwise -1, and nothing changes |
| SystemCalls.ChDirIsAnswered | src/server/server.cpp:255-262 | a chdir is answered 0 and sets the directory if memory lasts; otherwise -1 |
| SystemCalls.ExecMeans | src/server/server.cpp:209-233 | an exec of an absolute path, every step of loading working, makes the caller the program of the local path, under its pid, with environment and directory as memory allows and no descriptors; otherwise nothing changes |
| SystemCalls.OthersAreAnswered | src/server/server.cpp:186-309 | reading and writing, asking for the PID and requests without effect change nothing, and are answered the object's answer or -1, and the caller's index |
| SystemCalls.NewServer | src/server/server.cpp:52-61 | a new server is the transition system's initial state |
| SystemCalls.ListProgram | src/server/server.cpp:343-353 | listing a loaded program is the system's step, and gives it the next PID |
| SystemCalls.RegisterTty | src/server/server.cpp:513-523 | registering a terminal is the system's step, under the first free name |
| SystemCalls.StartProgram | src/server/server.cpp:371-381 | starting a program is the system's step in the child, and changes nothing in the server |
| Descriptors.InstallRefinesMap | src/server/server.cpp:657-674 | opening binds the lowest free local descriptor to the new object and changes what no other descriptor of any process denotes |
| Descriptors.OpenFileRefinesMap | src/server/server.cpp:642-681 | so does opening a file if and only if path, open and memory work out, to a file nobody had bound; otherwise no meaning changes |
| Descriptors.OpenDeviceRefinesMap | src/server/server.cpp:683-706 | so does opening a device if and only if the name is registered and memory lasts; exactly one open is counted on a registered name, even without memory, and on no other |
| Descriptors.OpenSocketRefinesMap | src/server/server.cpp:608-628 | so does handing a process a socket if and only if memory lasts |
| Descriptors.OpenSocketKeepsExact | src/server/server.cpp:608-628 | handing over a socket keeps the tables exact, whether or not memory lasts |
| Descriptors.CloseDropsOrFails | src/server/server.cpp:708-746 | closing what a slot holds drops that slot and its entry, or changes nothing at all: the first slot found is the only one |
| Descriptors.CloseRefinesMap | src/server/server.cpp:708-746 | a close unbinds exactly the one descriptor if it is bound and stands for a device or the kernel agrees, and gives a file's kernel descriptor back; a second close fails without changing state; device counts stay |
| Descriptors.TeardownVisitsEverySlotOnce | src/server/server.cpp:355-365 | the teardown loop, which edits the table it walks, gives up exactly the descriptors whose closing works, in slots and entries, and keeps all else |
| Descriptors.TeardownRefinesMap | src/server/server.cpp:355-365 | afterwards the process denotes exactly what was refused and every other process what it did |
| Descriptors.ReplaceKeepsExactIffAllClose | src/server/server.cpp:224-228 | exec leaves no orphaned entry and no leaked kernel descriptor if and only if every close it attempts is granted |
| Descriptors.AllCloseMeans | src/server/server.cpp:355-365 | that is, if and only if what the process has open are devices or the kernel agrees |
| Descriptors.OpenFileKeepsExact | src/server/server.cpp:676-680 | opening a file leaks a kernel descriptor if and only if memory runs out and undoing the open fails |
| Descriptors.OpenDeviceKeepsInv | src/server/server.cpp:683-706 | opening a device, also when it fails after counting, keeps the table invariant and the bound on live descriptors |
| Descriptors.CloseKeepsInv | src/server/server.cpp:708-746 | so does every close, although closing a device does not lower its count |
| Descriptors.RefusedButFreedAliases | src/server/server.cpp:708-746 | if a refused close frees the kernel's descriptor all the same, the invariant is lost, and a later open can make two local descriptors denote one file |
| Descriptors.RemoveSparesOpenDevices | src/server/devices.cpp:47-68 | a device that can be removed has no live descriptor |
| DeviceRegistry.AddRefinesMap | src/server/devices.cpp:21-45 | adding binds a new name with count zero, or fails and changes nothing |
| DeviceRegistry.RemoveRefinesMap | src/server/devices.cpp:47-68 | removing unbinds a name whose count is zero, or fails |
| DeviceRegistry.OpenRefinesMap | src/server/devices.cpp:74-84 | opening counts one more on exactly that name and yields its device |
| DeviceRegistry.CloseRefinesMap | src/server/devices.cpp:86-98 | closing counts one less on exactly that name if its count is positive |
| DeviceRegistry.CountIsOpensMinusCloses | src/server/devices.cpp:21-98 | after any history, the count of a name is its successful opens minus its successful closes since it was added |
| DeviceRegistry.OrderIsKept | src/server/devices.cpp:21-98 | new names go to the end of the list, and removing, opening and closing leave the others in their order |
| DeviceRegistry.StillOpenIsTheOrderedRemainder | src/server/devices.cpp:10-19 | what the destructor leaves are exactly the entries with a positive count, in their old order |
| DeviceRegistry.Devices.GetIndex | src/server/devices.cpp:105-111 | the scan finds the first record of a name, and none if there is none |
| DeviceRegistry.Devices.Exists | src/server/devices.cpp:70-72 | true exactly for registered names |
| DeviceRegistry.Devices.Add | src/server/devices.cpp:21-45 | the list after an add |
| DeviceRegistry.Devices.Remove | src/server/devices.cpp:47-68 | the list after a remove |
| DeviceRegistry.Devices.Open | src/server/devices.cpp:74-84 | the list after an open, and the device |
| DeviceRegistry.Devices.Close | src/server/devices.cpp:86-98 | the list after a close |
| DeviceRegistry.Devices.Destroy | src/server/devices.cpp:10-19 | the loop that removes while indexing ends, and leaves the entries still open |
| Servers.Server.constructor | src/server/server.cpp:52-61 | a new server has one dummy process and empty tables |
| Servers.NewServerIsExact | src/server/server.cpp:52-61 | and satisfies the invariant, exactly |
| Servers.Server.FindCaller | src/server/server.cpp:31-39 | the scan yields the first process recorded under the pid |
| Servers.Server.FdCreate | src/server/server.cpp:752-775 | the first reusable index, with a fresh entry if one had to be made, and nothing else changed |
| Servers.Server.FdOpenSocket | src/server/server.cpp:608-628 | the tables and the local descriptor after a socket is handed over |
| Servers.Server.FdOpenFdFromFile | src/server/server.cpp:642-681 | the tables and the local descriptor after opening a file |
| Servers.Server.FdOpenFdFromDevice | src/server/server.cpp:683-706 | the tables and the local descriptor after opening a device |
| Servers.Server.SyscallOpen | src/server/server.cpp:285-295 | an open call binds the lowest free descriptor to the device or file named, exactly when it can, and keeps the invariant |
| Servers.Server.FdClose | src/server/server.cpp:708-746 | the tables and the answer after a close; the assertion on the count holds |
| Servers.Server.SyscallClose | src/server/server.cpp:296-304 | a close call unbinds the one descriptor or changes nothing, a repetition would fail, and the invariant is kept |
| Servers.Server.SyscallTransfer | src/server/server.cpp:263-284 | a read or write reaches exactly the object the descriptor denotes, and is refused if it denotes none |
| Servers.Server.FdTransfer | src/server/server.cpp:562-606 | a server descriptor leads to its object or to -1 |
| Servers.Server.ProcessFree | src/server/server.cpp:355-365 | the loop over the shrinking table has the effect of closing every slot once |
| Servers.Server.ProcessAdd | src/server/server.cpp:343-353 | only a loaded process is appended, and gets its index as PID |
| Servers.Server.ProcessRun | src/server/server.cpp:371-381 | a process is run exactly when memory for its arguments, its state and the fork allow it, and only the child of the fork is marked as running under its pid |
| Servers.Server.ProcessFork | src/server/server.cpp:158-184 | a failed fork restores the process list exactly; otherwise both sides have one more entry, the child's under its pid |
| Servers.Server.SyscallExec | src/server/server.cpp:209-233 | exec works exactly for an absolute path and favourable answers; then the whole new state: same pid and index, an equal environment in fresh memory, the old directory, no descriptors, and every other record as it was; otherwise nothing changes |
| Servers.Server.AddTty | src/server/server.cpp:513-523 | the first free name of tty0 to tty1023 is registered; if all are taken the last is tried in vain |
| Terminals.TtysAreNumbered | src/server/server.cpp:514-517 | the first name is tty0, each name is "tty" and a string that counts its number, and no two are the same |
| Terminals.DecimalReadsBack | src/server/server.cpp:517 | that string consists of digits, without a leading zero |
| Processes.Process.FdAdd | src/server/process.cpp:364-376 | the lowest free slot is bound |
| Processes.Process.FdRemove | src/server/process.cpp:378-386 | the first slot holding the descriptor is freed |
| Processes.Process.SetEnviron | src/server/process.cpp:139-185 | an equal deep copy in fresh memory, or none at all if memory fails anywhere |
| Processes.Process.Vrun | src/server/process.cpp:195-231 | a program starts exactly when its arguments could be copied, it is loaded and no fork fails |
| Processes.Process.Arun | src/server/process.cpp:233-266 | only a loaded process starts, and only where its code runs is it marked |
| Processes.Process.ForkCopy | src/server/process.cpp:268-350 | the copy's state, unshared environment and empty descriptor table |
| Processes.Process.LoadFileFS | src/server/process.cpp:76-114 | loading succeeds exactly for a blank process, an absolute path and favourable answers, and the directory is then that of the path; a failed attempt leaves no directory, and no name or path once it got to the library |
| SlashPaths.DirNameDropsLast | src/server/process.cpp:92-99 | that directory is absolute and has all components of the path but the last; it is the root, or a beginning of the path that does not end in a slash |
| Processes.Process.LoadFileLocal | src/server/process.cpp:388-443 | the stored name is what follows the last slash of the path |
| Search.StrStrRev | src/server/util.cpp:5-19 | the greatest position of a non-empty needle, none exactly when there is none, and the start for an empty one |
| Search.AfterLastSlash | src/server/process.cpp:408-414 | what follows it has no slash and is the only such suffix |
| ShellPaths.ShellPathReduce | src/programs/shell/src/shell.c:143-169 | the buffer then holds the canonical spelling, bytes behind the string are untouched, and there are at most two rounds |
| ShellPaths.SecondRoundChangesNothing | src/programs/shell/src/shell.c:145-168 | one round reaches the canonical spelling, which is no longer, and a second changes nothing |
| ShellPaths.CollapseSlashes | src/programs/shell/src/shell.c:148-159 | the in-place pointer loop collapses every run of slashes |
| SlashPaths.CollapseLeavesSingles | src/programs/shell/src/shell.c:148-159 | collapsing leaves no two adjacent slashes and never lengthens |
| SlashPaths.OneRoundNormalizes | src/programs/shell/src/shell.c:145-168 | collapsing and stripping equals joining the components behind an optional leading slash |
| SlashPaths.NormalIsCanonical | src/programs/shell/src/shell.c:143-169 | two paths reduce to the same string if and only if they have the same components and the same absoluteness |
| SlashPaths.NormalIsReduced | src/programs/shell/src/shell.c:143-169 | reducing is idempotent |
| ShellPaths.ShellPathAbsolute | src/programs/shell/src/shell.c:201-232 | the buffer holds the reduced path with a leading tilde expanded; when it is null |
| ShellPaths.AbsoluteFormMeans | src/programs/shell/src/shell.c:201-232 | that is: reduced, with the components and absoluteness of the path, or for a leading tilde the components of HOME and of what follows |
| ShellPaths.ShellPathDisplay | src/programs/shell/src/shell.c:171-199 | for every path and HOME: the buffer holds the displayed form; when it is null; and when contracting would leave the buffer or leave it unterminated |
| ShellPaths.TerminatedIffFits | src/programs/shell/src/shell.c:185-192 | where the move stays in the buffer, a terminated string is left, whatever realloc adds, if and only if HOME is not longer than the reduced path or that has two characters |
| ShellPaths.Contract | src/programs/shell/src/shell.c:184-192 | the move stays within the reallocated buffer of two more than the length, what the buffer then holds, and that it is the contracted string where one is left |
| ShellPaths.MoveStaysInsideIff | src/programs/shell/src/shell.c:184-190 | in size_t arithmetic the move stays within that buffer if and only if HOME is not empty and at most one longer than the reduced path |
| ShellDisplays.DisplayResolvesBackIff | src/programs/shell/src/shell.c:171-232 | for every path and every absolute home directory, reduced or not: resolving what is displayed gives what the path resolves to if and only if the home prefix, if there is one, ends at a component and is reduced, or has one slash too many before something, or is one letter and too long for anything to be moved |
| ShellDisplays.ReducedHomeResolvesBack | src/programs/shell/src/shell.c:171-232 | with a reduced home directory, for every path, if and only if the home prefix, if any, ends at a component |
| ShellDisplays.DisplayResolvesBack | src/programs/shell/src/shell.c:171-232 | and so for every absolute home directory if the path is reduced |
| ShellDisplays.DisplayCanMislead | src/programs/shell/src/shell.c:183-193 | with the home directory /a (any name a), a directory /ab whose name continues it is shown as ~/b, which is another path |
| ShellDisplays.DisplayedUnderHome | src/programs/shell/src/shell.c:183-196 | with a reduced home directory that ends at a component of the path, and for every reduced path it is a byte prefix of, what is shown is a tilde and the remaining components |
| ShellDisplays.DisplayedOutsideHome | src/programs/shell/src/shell.c:171-199 | any other path, and every path without HOME, is shown in its absolute form |
| ShellDisplays.HomeWithSlashCanMislead | src/programs/shell/src/shell.c:183-193 | with HOME=/abc/ (any name of two letters or more) the unreduced path /abc/ is shown as ~/bc |
| ShellSessions.SessionsStayShowable | src/programs/shell/src/shell.c:105-128 | after any sequence of cd commands the directory is reduced and not in tilde form, so the prefix test on the unreduced path is one on the reduced one and the length difference cannot underflow |
| ShellSessions.Shell.ShellCd | src/programs/shell/src/shell.c:105-128 | cd moves exactly if there is an argument, HOME where a tilde needs it, memory, and chdir works, to a reduced directory with the argument's components (behind those of HOME for a tilde); otherwise the directory stays |
| ShellSessions.Shell.Prompt | src/programs/shell/src/shell.c:46-55 | the prompt shows the directory, under a reduced home directory as a tilde and the remaining components |
| Factor.FactorLine | src/programs/factor/src/factor.c:15-48 | for every 64-bit number and root routine: sorted primes with that product, the only such list there is, printed within root plus log2 iterations for a monotone root, and when the last prime is used up by the loop |
| Factor.ExactRootsNeverUseUp | src/programs/factor/src/factor.c:46-48 | with an exact root the remainder is never one, so the guard never decides anything |
| Factor.NoWrap | src/programs/factor/src/factor.c:30-31 | the wrapped computation of the remainder is the remainder |
| Factor.IsqrtIsARootRoutine | src/programs/factor/src/factor.c:26 | the assumptions on root routines can be met |
| Primes.Euclid | src/programs/factor/src/factor.c:25-44 | a prime dividing a product divides a factor |
| Primes.FactorisationIsUnique | src/programs/factor/src/factor.c:25-48 | prime factorisation is unique |
| Tokens.Tokenize | src/programs/dshell/token.cpp:21-91 | the character loop computes the automaton's tokens, for three or four delimiters |
| TokenGrammar.EveryReadingGivesTheTokens | src/programs/dshell/token.cpp:21-91 | for any reading of an input as blanks, operators, strings and words, the tokens are those of the reading |
| TokenLaws.OnlyTheTokenizerObeys | src/programs/dshell/token.cpp:21-91 | the laws on a space, a newline, `&`, the bar, a dollar, quotes and other characters hold of the tokens, and of nothing else: any function obeying them is the tokenizer |
| TokenLaws.SpacesAndOperatorsSeparate | src/programs/dshell/token.cpp:8-19 | behind an even number of quotes a space separates, and `&` and the bar do and are tokens of their own |
| TokenLaws.NewlineSeparatesIffCounted | src/programs/dshell/token.cpp:8-19 | a newline separates if and only if the count is four |
| TokenLaws.OthersJoin | src/programs/dshell/token.cpp:61-83 | other characters make one token together |
| TokenLaws.DollarIsDropped | src/programs/dshell/token.cpp:46-49 | a dollar outside strings is as if it were not there |
| TokenLaws.QuotedIsOneToken | src/programs/dshell/token.cpp:35-59 | what stands between quotes, or behind an open one, is one token |
| TokenGrammar.EveryInputHasAReading | src/programs/dshell/token.cpp:21-91 | every input has such a reading |
| TokenGrammar.ReadingsAreUnique | src/programs/dshell/token.cpp:21-91 | and only one: reading what a reading spells gives that reading back |
| TokenGrammar.TokensAreWhatIsKept | src/programs/dshell/token.cpp:21-116 | tokens are never empty, and together are the input without quotes, unquoted blanks and unquoted dollars |
| TokenGrammar.SpaceSeparatesIffOutsideString | src/programs/dshell/token.cpp:35-83 | a space splits off every continuation if and only if the input does not end inside a string, that is, has an even number of quotes |
| TokenGrammar.DelimiterSeparates | src/programs/dshell/token.cpp:61-80 | so does every delimiter, adding itself as a token unless blank |
| Commands.HandleCommand | src/programs/dshell/command.cpp:13-53 | the jobs are the printed stretches between splitters, the last only if not empty |
| Commands.OneJobPerSplitter | src/programs/dshell/command.cpp:13-53 | one job per splitter, plus one if anything follows the last |
| Commands.JobsByTokens | src/programs/dshell/command.cpp:13-53 | what stands before a `&` is one job, its tokens each followed by a space, and the jobs of the rest come after it; without `&` there is one job if there are tokens |
| Commands.CommandsReadBack | src/programs/dshell/command.cpp:13-53 | for every input, tokenizing its jobs again with splitters between gives its tokens back if and only if all are plain and no splitter ends them |
| Commands.UnquotedCommandsReadBack | src/programs/dshell/command.cpp:13-53 | for an input without quotes, if and only if no splitter ends its tokens |
| Commands.FinalSplitterLeavesNoTrace | src/programs/dshell/command.cpp:42-50 | an input like `a&`, any word and the splitter, has other tokens than the word alone and the same jobs |
| Commands.LinesReadBack | src/programs/dshell/dshell.cpp:23-33 | the jobs of a whole line without quotes always give its tokens back |
| Commands.PlainIffItsOwnToken | src/programs/dshell/token.cpp:21-91 | a token re-tokenizes to itself if and only if it is plain |
| JobStrings.Strtok | src/programs/dshell/job.cpp:43 | each call yields the next field and leaves the others |
| JobStrings.FieldsByCharacters | src/programs/dshell/job.cpp:43 | spaces and newlines end fields and are dropped, and all other characters fill them |
| JobStrings.Job.JobFromString | src/programs/dshell/job.cpp:42-53 | name and arguments are the fields of the string, in order; there is no job exactly when the string has no field |
| JobStrings.Job.StartProcess | src/programs/dshell/job.cpp:32-36 | what is handed to popen is the name alone |
| JobStarts.RunInput | src/programs/dshell/dshell.cpp:30-37 | the commands handed to popen for an input are the first fields of its jobs, in order, and the loop crashes if and only if some job has none |
| JobStarts.JobsStartTheirTokensIff | src/programs/dshell/job.cpp:32-53 | for every input and both counts, what is started for the jobs is their tokens if and only if no blank is kept in a token and every second token, and no other, is a splitter |
| JobStarts.LinesStartTheirWordsIff | src/programs/dshell/dshell.cpp:23-37 | with the count as written, what is started for the jobs of a whole line without quotes is their stretches of the line if and only if words and splitters alternate with a word at either end |
| JobStarts.ArgumentsAreDropped | src/programs/dshell/job.cpp:32-53 | the job of any two words is read as both and started without the second |
| JobStarts.LsIsStartedWithoutItsArgument | src/programs/dshell/job.cpp:32-53 | so it is for `ls -l` |
| JobStrings.JobsMeanTheirTokens | src/programs/dshell/job.cpp:42-53 | a printed job is read, as name and arguments, as exactly its tokens if and only if none holds a blank |
| JobStrings.JobsReadAsTheirTokensIff | src/programs/dshell/job.cpp:42-53 | for every input and both counts, all its jobs are read as exactly the tokens they were made of if and only if no blank is kept in a token and no splitter begins the tokens or follows another |
| JobStrings.UnquotedJobsReadIff | src/programs/dshell/token.cpp:8-19 | so they are for an input without quotes if and only if it holds no newline or the newline is counted, and the splitters stand apart |
| JobStrings.JobsStartIffTheyHoldAWord | src/programs/dshell/dshell.cpp:35-37 | a job can be started if and only if one of its tokens is not all blank |
| JobStrings.UnquotedJobsCanStartIff | src/programs/dshell/dshell.cpp:35-37 | with the newline counted, the jobs of an input without quotes can all be started if and only if no splitter begins its tokens or follows another |
| JobStrings.LoneSplitterCannotStart | src/programs/dshell/dshell.cpp:35-37 | the one job of `&` is empty and has no field |
| JobStrings.LinesReadAsTheirWords | src/programs/dshell/job.cpp:42-53 | with the count as written, each job of a whole line without quotes is read as exactly the words of its stretch of the line |
| JobStrings.LinesCanStartIff | src/programs/dshell/dshell.cpp:23-37 | and all of them can be started if and only if the line has tokens, does not begin or end with a splitter and has no two as neighbours |
| JobStrings.EmptyLineCannotStart | src/programs/dshell/dshell.cpp:23-37 | an empty line is a job that cannot be started |
| JobStrings.LineEndingInSplitterCannotStart | src/programs/dshell/dshell.cpp:23-37 | nor can the last job of a line that is a word and `&` |
| JobStrings.NewlineStaysInTheToken | src/programs/dshell/token.cpp:8-19 | with the count as written a line of one word has the word and its newline as token, which is not what its job is read as |

## Left out

- Sockets, select, accept, the database, logging, daemonising and the code of loaded programs: foreign calls; their answers are parameters where they matter.
- tcpPoll and the parsing of messages in tcpRead: only the naming of terminals is modelled.
- Handing sockets to processes as a step of the whole system: nothing in the program calls it; its effect on the tables is modelled.
- Values of flags and mode, permissions, and the bodies of device reads and writes.
- AddressSpaces.RunsKeepTables: a close that the kernel refuses is taken to leave the kernel's descriptor open, which POSIX leaves unspecified after EINTR or EIO; Descriptors.RefusedButFreedAliases says what happens otherwise.
- Overflow of reference counts and descriptor numbers beyond 31 bits; factor's arithmetic and the length given to memmove are the places where width is modelled.
- SlashPaths.DirName: where two leading slashes are left the answer is up to the implementation of dirname, and is a single one here.
- The argument vector and program pointers of a process, which nothing here reads.
- Whether processes deleted by exec or exit are still referenced: a deleted process is just no longer in the list, and an exited address space is gone.
- Searching a command in a path, PWD, comment and newline stripping in the shell.
- Inputs the program does not provide for: an empty path in the shell's path functions, a relative HOME in a cd session, a local descriptor out of range, a local path without a slash.
- ShellPaths.ShellPathDisplay: what the program does after its move has left the buffer is not defined and not modelled beyond being reported.
- JobStrings.Job.JobFromString: nor is what happens when a job is constructed from NULL.
- JobStarts.RunInput: popen is taken to work, and what its shell makes of the command and what is read from it are not modelled.
- SystemCalls.Serve: of an exit only the closing of descriptors, and of the descriptor calls only the request fields that matter here.
- Memory management of token strings and jobs: strings are values.
- The mathematical library's square root itself: that it is at least the integer square root on 64-bit numbers is an assumption.
- Simplifying dir/../ and equations after a dollar, which the program leaves empty.
