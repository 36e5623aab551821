# Verified model of openshell-build-image

This project models the parts of openshell-build-image that are hard to get
right by reading them, and proves what they are for. Everything is in Dafny;
`dafny verify dfyconfig.toml` checks it.

| file | what it models |
|---|---|
| `RootfsCache.dfy` | `install`, `stage` and `sweep_old_versions` of `src/vm_rootfs.rs` as a state machine: processes share one cache root, a step is one effect on it, any operation may fail and any process may crash or be interleaved between two steps |
| `CacheSafety.dfy` | what every run keeps: staging directories are private, installed trees are replaced and never merged |
| `CacheAgreement.dfy` | when a state in which the hit test passes holds a fresh extraction, over whole runs |
| `CacheRuns.dfy` | building runs, for the counterexamples |
| `CacheReturns.dfy` | what a process returns on a hit, where marker and helper are looked at one after the other: exact conditions with the runs that break them |
| `CacheSettling.dfy` | what is there once everybody has returned |
| `Installer.dfy` | the same code as a class that changes the directory tree in place; each method records the state-machine steps it takes, and the whole of `install` is proved against a specification |
| `CacheKey.dfy` | the digest text of `build.rs`, cache keys, markers, staging names |
| `Address.dfy` | IP addresses, their text and its reader, which ones a guest can reach |
| `Dns.dfy` | `resolv.conf` and `scutil` readers, the filter loop, the choice of nameservers |
| `HandOff.dfy` | the calls into libkrun with their C strings and pointer arrays, the machine they describe, where guest paths lead through its shares, the guest's word splitting and `resolv.conf` |
| `GuestKernel.dfy` | execution of a path in the shared root directory, which the rootfs check is for |
| `Containerfile.dfy` | the generated Containerfile, a reader for it, and what its copy and command do to the image |
| `VmProcess.dfy` | the forked child, its exit status, the waiting parent |
| `ForkSafety.dfy` | threads and locks around a fork without exec |
| `OutputPaths.dfy` | the default output name and the cut of an output path into directory and file name |
| `CommandLine.dfy` | one run of the command: order of effects, both backends, what reaches the guest |
| `Text.dfy` | splitting, joining, trimming, numerals |

## How the model is built

A cache root maps names to directories, and a directory maps paths to files
(text and permission bits) or folders. `RootfsCache.ProcStep` is the protocol of
`src/vm_rootfs.rs:101-173`, one case per program point: the two looks at the
cached directory (marker first, helper second), clearing and creating the
staging directory, one archive entry at a time, opening the marker and filling
it in pieces, the second look, clearing the cached directory, POSIX rename
(target absent or an empty directory), and the sweep. `RootfsCache.Mode` says
how the world behaves: `atomic` (a removal takes a directory at once; otherwise
it takes one entry a step, in any order), `faults` (any operation may fail, any
process may crash), `flaky` (reading the cached directory may fail, which the code
takes for a miss) and `overlap` (several processes may be at work at once, and then
one may disturb another's entry-by-entry removal and make it give up). Pids are
reused once their process has returned or crashed.

The headline results are `CacheSafety.StagingIsPrivate`,
`CacheSafety.ReplacedNeverMerged`, `CacheReturns.ReturnsFreshExactly`,
`CacheReturns.AtomicReturnsExactly`, `CacheAgreement.SequentialAgreement`,
`CacheSettling.InstalledWhenAllReturned`, `CacheSettling.ResultsLastExactly`,
`Installer.Process.Install`,
`HandOff.NameserversReachTheGuest`, `Containerfile.GeneratedReadsBack`,
`VmProcess.RunExactly`, `ForkSafety.ForkSafeExactly`,
`CommandLine.Host.RunCommand` and `CommandLine.GuestGetsWhatWasAsked`.

Three findings deserve a reader's attention.

* What `install` returns on a hit is not always a fresh extraction, since it looks
  at the marker and at the helper one after the other. For processes of one binary
  from an empty cache it is if and only if removal is atomic, or the archive can
  never be hit, or processes do not overlap and one of three holds: reads do not
  fail, or nothing but reads fails, or the archive holds nothing besides the marker
  and the helper (`CacheReturns.ReturnsFreshExactly`). With overlap any bootable
  archive breaks: a third process sees the marker, an install that missed earlier
  removes it, and the third sees the helper. Without overlap it takes both looks
  misread and a removal that fails half-way. With atomic removal and several
  archives the condition is that processes do not overlap or no other archive of the
  same version can install a bootable tree (`CacheReturns.AtomicReturnsExactly`, and
  `CacheReturns.AtomicReturnsExactlyFromEmpty` from an empty cache): a process can
  see its own marker and then another archive's helper.
  `CacheAgreement.AgreementExactly` is the different, weaker statement about one
  state in which both tests pass.
* A directory that was returned need not be there once everybody has finished, even
  with atomic removal and one archive: a process that missed clears it and can crash
  before its rename. `CacheSettling.ResultsLastExactly` gives the exact condition,
  and `CacheSettling.InstalledWhenAllReturned` says that nothing else endangers it.
* The repository's README (line 203) says that the embedded Containerfile is
  copied with the home directory and user inherited from the base image. The
  generated text sets `USER 0` in the stage it inherits from, so the copy is made,
  and the image left, as user 0 (`Containerfile.CopyRunsAsRoot`). The model
  follows the code.

## Model

| member | source | states |
|---|---|---|
| CacheSafety.OwnStaging | src/vm_rootfs.rs:152-173 | each step of a process carries its staging directory from one stage of completeness to the next: absent, a prefix of the archive, the whole archive, archive with a partial marker, complete tree |
| CacheSafety.UnpackedExactly | src/vm_rootfs.rs:164-169 | a path unpacked from an archive is what the last entry of that path says |
| CacheSafety.UnpackedFrom | src/vm_rootfs.rs:164-169 | and every unpacked path comes from such an entry |
| CacheSafety.CompleteExactly | src/vm_rootfs.rs:152-180 | a complete tree is the unpacked archive, except that `.rootfs-archive` is a file holding the version, a dash and the digest in hex |
| CacheSafety.StepTouches | src/vm_rootfs.rs:101-173 | a step changes nothing under the root but its own staging directory, this version at the clear and rename points, and the tree being swept |
| CacheSafety.StagingIsPrivate | src/vm_rootfs.rs:116-120 | in every interleaving with crashes, pid reuse, other versions and sweeps, a process at the rename holds exactly its archive's tree plus its key, and no other process's step changes anyone's staging directory |
| CacheSafety.StepInstallsWhole | src/vm_rootfs.rs:131-140 | any step on an installed directory removes it, leaves it, takes entries away, or is the rename that brings one archive's complete tree |
| CacheSafety.ReplacedNeverMerged | src/vm_rootfs.rs:131-145 | in every reachable state an installed directory is what is left of its initial contents or of one archive's complete tree for that version; with atomic removal it is absent, untouched or complete |
| CacheSafety.ContentArrivesByRename | src/vm_rootfs.rs:137-140 | an installed directory gains or changes an entry only in the single rename step, by a process of that version, and then holds that process's complete tree |
| CacheAgreement.DeletionNeverHits | src/vm_rootfs.rs:109-114 | taking entries away never makes the hit test pass, so a crash in the middle of a removal is harmless |
| CacheAgreement.SoloKept | src/vm_rootfs.rs:101-145 | one step of non-overlapping runs keeps agreement together with what each process has learnt from its looks: a removal starts only from a tree that fails the hit test |
| CacheAgreement.SequentialAgreement | src/vm_rootfs.rs:101-173 | over any sequence of non-overlapping installs of one binary, each failing or crashing at any fine-grained step, a passing hit test means exactly the unpacked archive plus the marker |
| CacheReturns.HitReturnsFresh | src/vm_rootfs.rs:112-114 | a process that returns on a hit in such runs returns a directory holding a fresh extraction, although marker and helper are looked at one after the other |
| CacheAgreement.AtomicAgreement | src/vm_rootfs.rs:101-145 | with atomic removal, for any number of processes, versions and archives with faults anywhere, every single state in which both tests pass holds the archive looked for; what a process returns is the next rows' matter |
| CacheAgreement.OverlapOrMisreadsDisagree | src/vm_rootfs.rs:126-136 | with entry-by-entry removal, two overlapping installs of an archive that holds more than the two files, or one after another where both looks of the second are misread, reach a state in which both tests pass on an incomplete tree |
| CacheAgreement.AgreementExactly | src/vm_rootfs.rs:101-173 | for runs of one binary from an empty cache: every state in which both tests pass holds a fresh extraction if and only if removal is atomic, or processes do not overlap and reads do not fail, or the archive holds nothing besides the marker and the helper |
| CacheReturns.SoloReturnsHit | src/vm_rootfs.rs:112-129 | without overlap, both looks of a returning process hold in one state, whatever fails |
| CacheReturns.OverlapReturnsStale | src/vm_rootfs.rs:112-136 | with entry-by-entry removal and overlap, a process returns a directory that is no fresh extraction, for every installable archive with an executable helper |
| CacheReturns.FlakyReturnsStale | src/vm_rootfs.rs:112-136 | without overlap, both looks of one install misread and a removal that then fails half-way make the next install return what is left |
| CacheReturns.MisreadsAloneHarmless | src/vm_rootfs.rs:112-145 | without overlap, if nothing but reads fails, whoever returns on a hit stands on a state that agrees: a removal once begun runs to its end |
| CacheReturns.ReturnsFreshExactly | src/vm_rootfs.rs:101-145 | what processes of one binary return on a hit, in runs from an empty cache, is always a fresh extraction if and only if removal is atomic, or the archive can never be hit, or processes do not overlap and reads do not fail, or nothing but reads fails, or the archive holds nothing besides the two files |
| CacheReturns.AtomicReturnsFresh | src/vm_rootfs.rs:109-114 | with atomic removal, any faults and any other versions, a process that returns on a hit returns its own archive's fresh tree, if processes do not overlap or no other archive of its version can install a bootable one |
| CacheReturns.LookalikeReturned | src/vm_rootfs.rs:175-184 | if another one can, some run returns the other archive's tree, by an install between the two looks |
| CacheReturns.LookalikeReturnedFromEmpty | src/vm_rootfs.rs:175-184 | the same from an empty cache, for every archive that can itself be installed |
| CacheReturns.AtomicReturnsExactly | src/vm_rootfs.rs:101-145 | so with atomic removal that is the exact condition, in both directions, for runs from any root that agrees |
| CacheReturns.AtomicReturnsExactlyFromEmpty | src/vm_rootfs.rs:101-145 | and for runs from an empty cache, where an archive that cannot be installed is never returned either |
| CacheSettling.InPlaceKept | src/vm_rootfs.rs:131-140 | with atomic removal and any faults, a directory that is there, or about to be renamed into place, stays so over every step except the crash or failure of a process at its rename over no directory |
| CacheSettling.InstalledWhenAllReturned | src/vm_rootfs.rs:112-145 | with atomic removal, whatever else fails or crashes: once a process got past staging, even one whose rename lost, the directory is present or about to be in every later state, whatever becomes of that process and its pid, as long as no process is struck at its rename; whenever all have returned it is present, and is the initial one or one archive's complete tree |
| CacheSettling.InstalledWithoutFaults | src/vm_rootfs.rs:112-145 | without faults no such condition is left |
| CacheSettling.ResultsLastExactly | src/vm_rootfs.rs:131-140 | with atomic removal and one archive from an empty cache, a directory a process got is there whenever all have returned if and only if nothing fails, or the archive cannot be installed, or processes do not overlap, reads do not fail and the tree passes its own test; otherwise a process clears it and crashes at its rename |
| Installer.Process.Record | src/vm_rootfs.rs:101-145 | every effect of the imperative code is one step of the state machine, so its trace is a run |
| Installer.Process.RemoveDirAll | src/vm_rootfs.rs:131-136 | entry-by-entry removal: success takes exactly that directory, failure leaves every other name alone |
| Installer.Process.Stage | src/vm_rootfs.rs:152-173 | success leaves the complete tree with its marker in the staging directory; without failures it succeeds exactly for an intact archive whose marker can be written; a staging path that is not a directory stops it with nothing changed |
| Installer.Process.LooksCached | src/vm_rootfs.rs:112-114 | true only if the hit test passes, and exactly then when reads do not fail; a directory it accepts is one whose script the guest can execute, and with its marker in place such a directory is accepted |
| GuestKernel.BootsExactly | crates/vm-image-builder/src/lib.rs:196-226 | the rootfs check passes exactly when the guest kernel can execute `/usr/local/bin/vm-build` in that directory: a regular file that its owner, its group or the others may execute |
| GuestKernel.HitExactly | src/vm_rootfs.rs:109-114 | a hit is a marked directory whose script runs, in both directions |
| Installer.Process.SweepOldVersions | src/vm_rootfs.rs:197-215 | removes, without failures, exactly the directories that are neither current nor staging; never changes any other name |
| Installer.Process.ReplaceDir | src/vm_rootfs.rs:131-145 | stale tree out, staged tree in, others swept; a path that cannot be cleared fails with only the staging directory gone |
| Installer.Process.Install | src/vm_rootfs.rs:101-145 | whatever fails: the run is one of the state machine's, Ok names this version with a tree that hit before, whose script runs, or that is complete, no name outside this version, own staging and the sweep changes; without failures the new root and outcome equal the specification's |
| Installer.InstallMeaning | src/vm_rootfs.rs:101-145 | the specification: success exactly for a hit or an installable archive with nothing in the way; a hit changes nothing; otherwise one complete tree remains and no other version; a failure leaves everything but the own staging directory |
| Installer.NextInstallHits | src/vm_rootfs.rs:79-81 | after a successful install the next one hits and changes nothing, exactly when there was a hit before or the archive holds an executable helper |
| Installer.StoppedInstallAgrees | src/vm_rootfs.rs:109-145 | an install stopped anywhere, after any failures, leaves a directory that agrees if it started from one |
| CacheKey.Hex | build.rs:149-156 | the fold computes the two-digits-a-byte text |
| CacheKey.HexDecodes | build.rs:149-156 | the digest text decodes to its bytes and holds only 0-9a-f |
| CacheKey.HexEncodes | build.rs:149-156 | every text the decoder accepts is the one the encoder writes for what it decodes to |
| CacheKey.KeyIsTrimmed | src/vm_rootfs.rs:178-180 | a key survives the trim applied to the marker |
| CacheKey.KeysSeparateArchives | src/vm_rootfs.rs:178-180 | keys are equal if and only if version and digest bytes are, even when versions hold dashes |
| CacheKey.MarkerNamesOneArchive | src/vm_rootfs.rs:182-184 | a written marker is accepted for its own version and digest and for no other |
| CacheKey.MarkerIgnoresSpace | src/vm_rootfs.rs:178-184 | white space at either end of a marker or of the digest text changes neither match nor key |
| CacheKey.StagingNamesDistinct | src/vm_rootfs.rs:116-116 | staging names are equal if and only if version and pid are, and no version is taken for one |
| Address.MasksAreRanges | crates/vm-image-builder/src/dns.rs:105-105 | the mask tests equal the ranges fe80 to febf and ff00 to ffff |
| Address.ReachableV6Exactly | crates/vm-image-builder/src/dns.rs:97-107 | the unusable IPv6 addresses are exactly ::, ::1, fe80::/10 and ff00::/8 |
| Address.ReachableV4Exactly | crates/vm-image-builder/src/dns.rs:97-107 | the unusable IPv4 addresses, as numbers, are exactly 0.0.0.0, 127.0.0.0/8, 169.254.0.0/16, 224.0.0.0/4 and 255.255.255.255 |
| Address.AddressReadsBack | crates/vm-image-builder/src/dns.rs:110-116 | every IPv4 and IPv6 address printed in canonical text parses back to itself |
| Address.V4TextIsUnique | crates/vm-image-builder/src/dns.rs:185-185 | a text parses as an IPv4 address exactly when it is that address printed: no leading zeros, no other form |
| Address.CanonicalV6 | crates/vm-image-builder/src/dns.rs:110-116 | printed IPv6 text abbreviates the first of the longest runs of zero segments where it is longer than one, and nothing else |
| Address.PrintCharacters | crates/vm-image-builder/src/dns.rs:110-116 | address text is never empty and holds only hexadecimal digits, dots and colons |
| Dns.TextConcat | crates/vm-image-builder/src/dns.rs:174-188 | reading lines with any reader blind to line endings is a homomorphism at a newline |
| Dns.ResolvConfConcat | crates/vm-image-builder/src/dns.rs:174-188 | parsing two texts joined by a newline is parsing each |
| Dns.LineEndNoise | crates/vm-image-builder/src/dns.rs:177-178 | adding a # or ; comment or a carriage return at any line end changes nothing |
| Dns.UncommentedExactly | crates/vm-image-builder/src/dns.rs:177-178 | a comment runs from the first # or ; and nothing else starts one |
| Dns.SilentLineInserted | crates/vm-image-builder/src/dns.rs:176-186 | inserting a line that yields no address anywhere changes nothing |
| Dns.SpeakingLines | crates/vm-image-builder/src/dns.rs:176-186 | reference reading by words: a line yields an address if and only if, up to a comment, it is exactly two words, the directive and that address |
| Dns.OtherLinesSilent | crates/vm-image-builder/src/dns.rs:176-186 | blank lines, comments and lines with another first word yield none, so inserting one anywhere changes nothing |
| Address.ForeignIsNotAddress | crates/vm-image-builder/src/dns.rs:185-185 | a text with any character besides hexadecimal digits, dots and colons parses as no address |
| Dns.ResolvConfReadsBack | crates/vm-image-builder/src/dns.rs:174-188 | any list written one nameserver line each parses back to itself |
| Dns.ScutilReads | crates/vm-image-builder/src/dns.rs:162-171 | a nameserver line of the tool, at any indentation and index, adds its address in its place |
| Dns.ScutilSpeaks | crates/vm-image-builder/src/dns.rs:162-171 | a line yields an address if and only if, past its indentation, it opens with `nameserver[` and that address follows the first " : " |
| Dns.ScutilNoise | crates/vm-image-builder/src/dns.rs:162-171 | a line that yields no address adds nothing, wherever it stands |
| Dns.Sanitize | crates/vm-image-builder/src/dns.rs:192-207 | the loop with its early exit computes the first three first occurrences of the reachable addresses of the whole list |
| Dns.SanitizedMeaning | crates/vm-image-builder/src/dns.rs:190-207 | the result is a repeat-free, in-order subsequence of reachable addresses, complete when shorter than three, and filtering it again changes nothing |
| Dns.HostNameservers | crates/vm-image-builder/src/dns.rs:120-140 | if the tool names a reachable resolver, the result is its filtered list; if not and the file does, the file's; empty exactly when neither readable source names one |
| Dns.SanitizedEmptyExactly | crates/vm-image-builder/src/dns.rs:190-207 | filtering leaves nothing exactly when no address is reachable |
| Dns.FirstUnreachableMeaning | src/main.rs:257-265 | the offender found is the first unreachable address, and there is none exactly when all are reachable |
| Dns.VmNameserversMeaning | src/main.rs:253-267 | a choice is made exactly when no given address is unreachable; it is the user's list verbatim; without one it is the tool's filtered list if that names a usable resolver, else the file's, else exactly 1.1.1.1, and never empty, repeated, unreachable or longer than three |
| HandOff.StringReadsBack | crates/vm-image-builder/src/krun.rs:272-279 | a string without NUL reads back from its non-null pointer, whatever else is allocated |
| HandOff.RefusalExactly | crates/vm-image-builder/src/krun.rs:228-279 | the error names the first of the caller's strings that cannot be a C string, and there is none exactly when all can |
| HandOff.NewArgsExactly | crates/vm-image-builder/src/krun.rs:228-279 | the checks reject a build exactly when a path is not UTF-8 or a path, the output name or the tag holds a NUL; which kind of error says which |
| HandOff.ConfigurationReadsBack | crates/vm-image-builder/src/krun.rs:149-189 | C's reading of the six calls gives the machine exactly the resources asked for, rootfs, build context and output directory each under its own tag, the working directory and the script |
| HandOff.ExecReadsBack | crates/vm-image-builder/src/krun.rs:171-190 | C's reading of both arrays recovers Containerfile path, tag and output name, and PATH with the nameservers if there are any, each text in full |
| HandOff.GuestPathsLeadBack | crates/vm-image-builder/vm-image/vm-build:42-44 | through the shares as mounted, the script lies in the rootfs, its Containerfile in the build context, and its tarball is the output asked for |
| HandOff.WriteResolvConf | crates/vm-image-builder/vm-image/vm-build:69-74 | the guest's loop writes one nameserver line per word, or nothing for an empty variable |
| HandOff.JoinedListSplits | crates/vm-image-builder/src/lib.rs:285-290 | the shell's field splitting of the joined value gives the address texts back |
| HandOff.NameserversReachTheGuest | crates/vm-image-builder/vm-image/vm-build:66-74 | end to end: print, join, lay out in memory, read as environment, split, write and parse is the identity on every list, and an empty list leaves the guest's file alone |
| Containerfile.GeneratedReadsBack | src/containerfile.rs:37-68 | a reference is rejected exactly when it is empty or has white space or control characters; otherwise the text reads back as exactly the intended instructions |
| Containerfile.GenerateInjective | src/containerfile.rs:46-52 | equal texts come from equal references and flags |
| Containerfile.CopyEmbedsStaged | src/containerfile.rs:54-60 | executed, the instructions leave the staged file at $HOME/Containerfile and change no other file but the path they copy through; without copying none changes; without the staged file they fail |
| Containerfile.CopyRunsAsRoot | src/containerfile.rs:49-65 | at the COPY, at the RUN and in the final image the uid is 0, following the stages, however the image resolves names; the base image's own user is kept exactly when its uid is 0 |
| VmProcess.EnterVm | crates/vm-image-builder/src/krun.rs:132-205 | all six configuration calls, with their pointers, are made before the first result is looked at, the VM is entered exactly when all succeeded, and the child ends with 119, 118 or the workload's fate |
| VmProcess.EnteredAsConfigured | crates/vm-image-builder/src/krun.rs:149-199 | a machine that is entered is the one the build describes |
| VmProcess.WaitFor | crates/vm-image-builder/src/krun.rs:94-128 | after any finite number of interruptions the result is that of the first other answer |
| VmProcess.Run | crates/vm-image-builder/src/krun.rs:66-91 | checks before the fork, one child at most, its calls, and the parent's result |
| VmProcess.StatusReadsBack | crates/vm-image-builder/src/krun.rs:110-114 | the wait status macros recover signal or exit code from the kernel's encoding |
| VmProcess.RunExactly | crates/vm-image-builder/src/krun.rs:66-128 | with a reaped child: success exactly when context and all calls succeeded, the VM was entered and the workload exited 0; other exit codes are unchanged, except that 118 and 119 read as libkrun failures |
| VmProcess.SuccessExactly | crates/vm-image-builder/src/krun.rs:66-128 | success if and only if the strings were accepted, the check and the fork passed, the child was reaped, and the VM was entered with a workload that exited 0 |
| VmProcess.NoChildNoSuccess | crates/vm-image-builder/src/krun.rs:69-80 | no success without a reaped child; a process of several threads always fails |
| VmProcess.CheckPassesExactly | crates/vm-image-builder/src/lib.rs:637-646 | the thread check passes off macOS, and on macOS with a count of at most one only; a count that cannot be read fails it |
| VmProcess.CheckedForkIsSafe | crates/vm-image-builder/src/lib.rs:625-646 | a fork the check lets through leaves no lock behind, for every process and everything the caller does before the fork short of starting a thread, exactly where the check counts threads, which is macOS |
| ForkSafety.ChildNeverWaitsOnTheDead | crates/vm-image-builder/src/lib.rs:607-646 | if the caller was the only thread when threads were counted and has started none since, every lock held in the child, at any later point, is held by one of its living threads |
| ForkSafety.LockedForever | crates/vm-image-builder/src/lib.rs:614-619 | a lock owned by a thread the fork left behind is never released or acquired in the child |
| ForkSafety.ForkSafeExactly | crates/vm-image-builder/src/lib.rs:614-619 | a lock held at the fork can be taken in some future of the child if and only if the forking thread holds it, and the owners of held locks live in every future if and only if that is so of all |
| OutputPaths.DefaultNameOfTag | src/main.rs:275-287 | the default name is the tag with every character but letters, digits, dots, dashes and underscores replaced by a dash, and `.tar` after it |
| OutputPaths.DefaultNameIsTotal | src/main.rs:275-287 | for every tag the default name is one plain component: its own file name, in ".", without NUL or separator |
| OutputPaths.OutputIsCutExactly | crates/vm-image-builder/src/lib.rs:563-579 | every output path has a file name exactly when it has a component and does not end in ".."; directory and name together are then the path again, component by component and from the same start |
| OutputPaths.NameAfterLastSlash | crates/vm-image-builder/src/lib.rs:563-571 | the name is what stands after the last separator |
| CommandLine.DefaultNameIsAccepted | crates/vm-image-builder/src/krun.rs:228-249 | without --vm-output a build is refused only for a path or the tag, never for the default name |
| CommandLine.CheckVmFlagsExactly | src/main.rs:197-212 | a VM flag without the VM is refused, the first given in the listed order by name, and nothing else is |
| CommandLine.GuestGetsWhatWasAsked | crates/vm-image-builder/src/lib.rs:563-604 | from the command line into the guest: the resources asked for or the defaults; the script in the rootfs asked for or the cached one; the Containerfile in the build context; the tag; the file name of the output asked for or the default name unchanged, written in that output's directory; and a resolver file that reads as exactly the nameservers chosen |
| CommandLine.Host.SelectVm | src/main.rs:317-330 | no cache write unless every --vm-dns address is reachable and no rootfs was given; success means the rootfs asked for, or this version's, is one whose script the guest can execute, with the resources, nameservers and output asked for or their defaults; a given rootfs is accepted exactly when its script runs and every address is reachable |
| CommandLine.Host.SelectRuntime | src/main.rs:295-309 | no cache write before the platform check; container backends only if in the path |
| CommandLine.Host.BuildInVm | crates/vm-image-builder/src/lib.rs:544-605 | nothing is written unless the rootfs passed; the engine sees the text just written and exactly the build asked for, which libkrun's string checks accept; success exactly when that VM was entered and its workload exited 0 |
| CommandLine.Host.Build | src/main.rs:351-371 | at most one engine starts, on the generated text, with the staged copy in the context exactly when asked for |
| CommandLine.Host.RunCommand | src/main.rs:167-186 | over a whole run: no cache write before flags, platform and nameservers passed; no output directory and no Containerfile in the context unless the VM was asked for and its rootfs's script runs; one faithful engine start at most, a VM only with the rootfs and the build asked for and a script that runs; success exactly when an engine started and its workload exited 0 |
| CommandLine.NoDanglingCopy | src/main.rs:351-371 | in what the engine is given, the text copies the staged file exactly when it is in the context |
| CommandLine.ImageEmbedsItsContainerfile | src/main.rs:351-371 | executed in the context the engine is given, the text leaves exactly itself at $HOME/Containerfile when copying was asked for |

## Left out

- tar, zstd and SHA-256: an archive is its list of entries and whether it decodes
  to the end; the digest is given bytes. Results about several archives
  take version and digest to identify one.
- Paths inside a directory: entries are removed in any order, a parent possibly
  before its children, which allows more than a file system does; symbolic links,
  ownership and the permissions of folders are not there, and a directory that holds
  the helper path as an entry need not hold its parents. Execution stops at the
  script: its interpreter is not looked for.
- The text of files is characters, not UTF-8 bytes; a marker that is not UTF-8 is
  a read failure.
- The reasons `check_rootfs` gives for refusing are not told apart, and it is one
  observation. The two looks of a hit test are separate steps of the state
  machine; agreement is a statement about single states, and
  what a process returns is in `CacheReturns.dfy`.
- A failing `exists()` on the staging path is not modelled; one on the cached
  directory is part of `flaky`.
- Agreement across different archives or versions when a crash lands in the middle
  of a removal, trees in use by a running VM, and another version's sweep: the
  installer makes no such promise, and an Ok result is none that the directory is
  still there later.
- IPv6 text: the reader accepts the forms the standard library does, but only for
  IPv4 is it proved that no other text parses; other IPv6 forms are not enumerated.
- Completeness of the sweep in the state machine, where it may stop early;
  `Installer.Process.SweepOldVersions` has it for one process.
- Installer.Process.Install: proved for one process; what overlapping processes do
  is in the state machine, whose steps it takes.
- CacheSettling.InstalledWhenAllReturned: only with atomic removal and for processes
  of one version; entry by entry, a crash can leave a partial tree, which the next
  install replaces, and another version's sweep may take the directory.
- Dns.HostNameservers: the outputs of `scutil` and the file's contents are
  parameters.
- CommandLine.Host.BuildInVm: the canonical form of a path is a parameter; the
  refusal to follow a symbolic link and the error values are not modelled; a path is
  compared by its components.
- ForkSafety.ChildNeverWaitsOnTheDead: that no thread starts between check and fork
  is read off `crates/vm-image-builder/src/krun.rs:69-78` and is a requirement of the
  lemma; off macOS the check reads nothing, and `VmProcess.CheckedForkIsSafe` says so.
- libkrun, buildah, container engines, mounts and the kernel: their return codes, how
  libkrun reads its calls, which share is mounted where, and the two commands of the
  copy by their effect. What an engine does with the image
  reference (registry syntax, FROM flags, build arguments) and here-documents is
  left to it; the reader works on lines and tokens.
- IPv4-mapped IPv6 addresses have no special treatment in the reachability test,
  as in the code.
- Temporary directories, logging, message texts, argument parsing, `build_summary`
  and the log level libkrun is given.
