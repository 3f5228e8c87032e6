# A verified model of the algorithmic kernels of arch and gf

The low-level libraries `pxr/base/arch` and `pxr/base/gf` hold a handful of self-contained algorithms between
their layers over the operating system. This project models ten of them in Dafny and proves what each is for.
Code that updates things in place is modelled as methods over arrays and objects, each proved against a
function or predicate of its inputs; what that function means is then proved in lemmas over all inputs, all
runs or all reachable states.

Check it with `dafny verify dfyconfig.toml`.

## The parts

- **Paths** (`PathMeaning`, `NormPath`, `CanonicalPath`). `_NormPath` rewrites a path inside its own buffer, with a
  read position ahead of a write position that sometimes moves back. It computes the path that a stack of components
  describes, and that path is a complete canonical form: two paths have the same normal form exactly if they lead
  to the same directory from every current directory, when they are read without symbolic links and with the rule
  for leading slashes of section 4.13 of the Base Definitions of POSIX.1-2017. No spelling with the same meaning is
  shorter, apart from the empty one.
- **SpookyHash** (`Words`, `SpookyMixers`, `SpookyRows`, `SpookyHash`, `SpookyStream`, `SpookySeparation`). A message
  hashed in fragments, with `Final` called at any point in between, gets the hash of the whole message, across the
  switch between the path for short messages and the one for long messages. The mixers are loops over arrays with
  indices modulo their lengths, and permutations with written-out inverses, so that messages of one length which differ
  in a single byte or word, messages which differ only behind their whole blocks, and different seeds always differ in
  the state behind the last step.
- **Launching an unrelated process** (`CloseAllFiles`, `LaunchProtocol`). Three processes and a pipe as a state machine:
  the parent returns true exactly if the callback succeeded or a descendant was lost before it could report, and the
  callback is only called in a grandchild prepared in all points.
- **One-time initialisation** (`OnceInit`). Any number of threads and one atomic whose loads may be stale: the value is
  computed once in every run exactly if the computation never returns -1.
- **Boxes** (`AffineSpace`, `BBox3d`, `BBoxVolume`, `BBoxLeast`, `GfBBox3d`). An aligned range is the least one that
  holds the image of a box; combining boxes loses no point of either, in any branch, never loses volume, and gives the
  least range that holds both in the space of the result.
- **Dual quaternions** (`Quaternion`, `DualQuaternion`). Products act as compositions, of any number of factors;
  the inverse works on both sides; a value is its length times its normalised value; it is characterised on which
  values normalising twice is normalising once.
- **Template lists** (`StringSearch`, `TemplateList`, `TemplateRoundTrip`, `TemplateHalting`, `TemplateNames`,
  `TemplateArguments`). Printing a template list behind a function and parsing it back gives the same map, and the
  lists on which the parser does not come to an end are characterised. So are the names, with template arguments
  nested to any depth, whose arguments the filter finds.
- **Globs** (`GlobRegex`). Three replacement passes are one translation, which has the meaning of the glob.
- **Crash log names** (`CStrings`, `StackTraceName`). Decimal numbers printed into a buffer of exactly sufficient size,
  and the search for the first unused name.
- **Whole transfers** (`ChunkedIo`). `ArchPRead` and `ArchPWrite` out of calls that the system may cut short.

`Basics` holds what several parts share.

## How things are represented

- A 64-bit word is a natural number below 2^64; `+=` wraps around, `^=` is bitwise, and the `|` in a rotation, whose
  two sides share no bits, is a sum. Words are read from bytes with the low byte first. The words of a hash state,
  and the fields of a box or a dual quaternion, make a record whose components are the variables of the code.
- Real numbers stand for `double` and `float`. Where the code takes a square root, the method takes the root as a
  parameter together with what makes it the root.
- What the operating system answers is left open: a method that stands for a system call promises only what POSIX
  promises, and its outcome is otherwise arbitrary. That a call is interrupted only finitely often is a counter that
  each interruption uses up.
- A process, a thread or a descriptor table is part of the state of a state machine, and a run is a sequence of events.
- Positions in a `std::string` are integers with -1 for `npos`; an `out_of_range` exception is the result `None`.
- A loop body that is long is a method of its own.

## Where the code and its descriptions differ

- `ArchCloseAllFiles` looks only below the limit on open files. A descriptor opened before the limit was lowered stays
  open (`AboveLimitStaysOpen`), and without a limit so does every one from 256 on (`UnlimitedLeavesOpen`). The 64-bit
  limit is also cast to `int`: one between 2^31 and 2^32, on a system that allows it, closes nothing
  (`WideLimitClosesNothing`).
- The parent of a launched process takes the end of the pipe without data for success. A descendant that is killed before
  its report is written makes it return true although the callback never ran (`LostReportMisleads`).
- `GetAtomicVar` counts on a non-negative value. Any other negative value than -1 is still computed only once, but it
  never releases the waiting threads (`NegativeNeverReleases`); with -1 the computation can run again (`ComputesTwice`).
- `Normalize` with an eps above 1 turns its own result into the identity, unless the value was too short from the start
  or is normalised to the identity (`NormalizeTwiceIff`, `NormalizeTwiceFails`).
- `_GetTemplateList` does not come back from the list of `f [with = a b]` (`RunsForever`).
- `_FilterTemplateList` loses arguments of names whose arguments have arguments: B of `F<V<A>, B>::g`, because the scan
  looks for the next opening bracket behind a closing one, and A of `F<V<A, C>>::g`, because it takes `V<A` for one
  argument and goes on behind the comma (`SomeArgumentsLost`, `FilterKeepsArgumentsIff`).
- `_GlobToRegex` escapes only the dot: `+` and the backslash keep their meaning in a regular expression
  (`SameLanguageIff`, `PlusRepeats`, `BackslashEscapes`).

## Model

| member | source | states |
|---|---|---|
| `NormPath.NextToken` | pxr/base/arch/fileSystem.cpp:207-218 | the token is the next maximal run without slashes |
| `NormPath.BackToken` | pxr/base/arch/fileSystem.cpp:317-322 | the reverse scan over the output finds its last token, bounded by slashes or the start |
| `NormPath.BackTokenMeaning` | pxr/base/arch/fileSystem.cpp:320-335 | in a rendered stack the last token is the top of the stack, and what is in front of it renders the rest; there is none exactly for the empty stack |
| `NormPath.TokenStep` | pxr/base/arch/fileSystem.cpp:293-294 | reading one token adds exactly one component, and the next token starts further right |
| `NormPath.PutIntact` | pxr/base/arch/fileSystem.cpp:296-309 | writing a token at or left of where it was read spoils nothing unread; in the same place it changes nothing, which makes skipping the copy sound |
| `NormPath.HandleElem` | pxr/base/arch/fileSystem.cpp:295-310 | copying an element, or skipping the copy, pushes it on the stack rendered so far and keeps the write index at or behind the read position |
| `NormPath.PopOrKeep` | pxr/base/arch/fileSystem.cpp:323-336 | the test on the last output token decides rightly whether a ".." stays or removes a component |
| `NormPath.HandleDotDot` | pxr/base/arch/fileSystem.cpp:314-338 | a ".." pops, is kept or is ignored at the root, as on the stack |
| `NormPath.RewriteTokens` | pxr/base/arch/fileSystem.cpp:277-340 | the whole loop leaves the reduced stack of all components behind the kept leading slashes |
| `NormPath.Finish` | pxr/base/arch/fileSystem.cpp:342-356 | trimming one written slash leaves exactly the normal form |
| `NormPath.NormPath` | pxr/base/arch/fileSystem.cpp:230-357 | the in-place algorithm returns the path that the component stack describes, no longer than its input |
| `NormPath.ReducedShape` | pxr/base/arch/fileSystem.cpp:323-336 | ".." stays only at the front of a relative path, "." never |
| `CanonicalPath.ComponentsOfJoin` | pxr/base/arch/fileSystem.cpp:305-308 | splitting joined components gives the components back, behind any leading slashes |
| `CanonicalPath.MeaningPreserved` | pxr/base/arch/fileSystem.cpp:230-357 | from every current directory a path and its normal form lead to the same directory |
| `CanonicalPath.MeaningDetermines` | pxr/base/arch/fileSystem.cpp:282-285 | paths with the same meaning have the same stack and the same class of leading slashes |
| `CanonicalPath.CompleteCanonicalForm` | pxr/base/arch/fileSystem.cpp:230-357 | two normal forms are equal if and only if the paths lead to the same directory from everywhere |
| `CanonicalPath.Idempotent` | pxr/base/arch/fileSystem.cpp:230-357 | normalising twice is normalising once |
| `CanonicalPath.NoLonger` | pxr/base/arch/fileSystem.cpp:233-236 | the normal form is never longer than the path, except for the empty one |
| `CanonicalPath.ShortestSpelling` | pxr/base/arch/fileSystem.cpp:230-357 | no non-empty path with the same meaning is shorter than the normal form |
| `CanonicalPath.RootKept` | pxr/base/arch/fileSystem.cpp:282-285 | two slashes in front stay exactly if there are exactly two; one, or at least three, become one; a relative path stays relative; nothing becomes empty, and the empty path becomes `.` |
| `Words.RotUndo` | pxr/base/arch/hash.cpp:123-126 | rotating by k and then by 64 - k gives the word back |
| `Words.RotBitwise` | pxr/base/arch/hash.cpp:123-126 | bit i of the rotated word is bit i - k, counted around the 64 bits |
| `Words.XorXor` | pxr/base/arch/hash.cpp:147-158 | exclusive or with the same word twice changes nothing |
| `Words.XorBitwise` | pxr/base/arch/hash.cpp:147-158 | a bit is set exactly if it is set in one of the two words |
| `SpookyMixers.Mix` | pxr/base/arch/hash.cpp:141-159 | the twelve straight-line rows are twelve rounds of one row on a turning state |
| `SpookyMixers.MixIsPermutation` | pxr/base/arch/hash.cpp:141-159 | for fixed data the rows are undone from both sides by the inverse rows |
| `SpookyMixers.OneWordCounts` | pxr/base/arch/hash.cpp:141-159 | blocks that differ in exactly one word leave different states behind |
| `SpookyMixers.EndPartial` | pxr/base/arch/hash.cpp:177-194 | the twelve rows of EndPartial are rounds of one row on a turning state |
| `SpookyMixers.EndPartialIsPermutation` | pxr/base/arch/hash.cpp:177-194 | EndPartial is undone from both sides |
| `SpookyMixers.EndInjectiveInBlock` | pxr/base/arch/hash.cpp:196-208 | from one state, different last blocks give different states |
| `SpookyMixers.EndInjectiveInState` | pxr/base/arch/hash.cpp:196-208 | with one last block, different states stay different |
| `SpookyMixers.ShortMixIsPermutation` | pxr/base/arch/hash.cpp:225-239 | ShortMix is undone from both sides |
| `SpookyMixers.ShortMix` | pxr/base/arch/hash.cpp:225-239 | its twelve rows are rounds of one row on a turning quadruple |
| `SpookyMixers.ShortEndIsPermutation` | pxr/base/arch/hash.cpp:253-266 | ShortEnd is undone from both sides |
| `SpookyMixers.ShortEnd` | pxr/base/arch/hash.cpp:253-266 | its eleven rows are rounds of one row on a turning quadruple |
| `SpookyRows.MixIsRows` | pxr/base/arch/hash.cpp:141-159 | Mix is a loop of one row over an array of twelve words with indices modulo 12 |
| `SpookyRows.EndIsRows` | pxr/base/arch/hash.cpp:177-208 | End is the sum with the block, word by word, and then thirty-six rows of one loop over the array |
| `SpookyRows.ShortMixIsRows` | pxr/base/arch/hash.cpp:225-239 | ShortMix is a loop of twelve rows over an array of four words |
| `SpookyRows.ShortEndIsRows` | pxr/base/arch/hash.cpp:253-266 | ShortEnd is a loop of eleven rows over an array of four words, which come out in the order of the code |
| `SpookyHash.AbsorbConcat` | pxr/base/arch/hash.cpp:443-463 | absorbing whole blocks and then the rest is absorbing all of it |
| `SpookyHash.PaddedWord` | pxr/base/arch/hash.cpp:366-409 | the bytes that the switch adds up are the little-endian words of the tail padded with zeros |
| `SpookyHash.AddTail` | pxr/base/arch/hash.cpp:366-409 | for every tail length the fall-through switch adds the two words of the padded tail, or the constant for an empty tail, and the length in the top byte |
| `SpookyHash.AddGroups` | pxr/base/arch/hash.cpp:336-364 | the loop over 32 bytes and the group of 16 absorb exactly the whole groups of 16 bytes |
| `SpookyHash.Short` | pxr/base/arch/hash.cpp:313-413 | the path for short messages gives the hash defined by groups and padded tail, and stays inside the message |
| `SpookyHash.MixBlocks` | pxr/base/arch/hash.cpp:443-463 | the block loop absorbs exactly the whole blocks |
| `SpookyHash.Hash128` | pxr/base/arch/hash.cpp:416-475 | the one-shot hash on both sides of 192 bytes, with the last block padded with zeros and its length |
| `SpookyStream.Stream.Init` | pxr/base/arch/hash.cpp:478-484 | nothing has been hashed yet |
| `SpookyStream.Stream.Stash` | pxr/base/arch/hash.cpp:500-507 | a short fragment goes behind the unhashed bytes |
| `SpookyStream.Stream.UseStash` | pxr/base/arch/hash.cpp:533-547 | the stash filled up from the fragment is absorbed as whole blocks; nothing is lost or doubled |
| `SpookyStream.Stream.Update` | pxr/base/arch/hash.cpp:487-587 | afterwards the stream stands for the old message followed by the fragment: whole blocks in the state, fewer than 192 bytes in the stash, nothing mixed below 192 |
| `SpookyStream.Stream.Final` | pxr/base/arch/hash.cpp:590-650 | gives the one-shot hash of everything so far, and writes only behind the unhashed bytes, so that the stream can go on |
| `SpookyStream.LongHash` | pxr/base/arch/hash.cpp:618-640 | whole blocks mixed in any portions and a padded rest make the one-shot hash |
| `SpookyStream.HashFragments` | pxr/base/arch/hash.cpp:478-650 | for all seeds and every split into fragments, with Final called or not after each, the result is the one-shot hash of the whole message |
| `SpookySeparation.PadInjective` | pxr/base/arch/hash.cpp:465-471 | zeros and the length in the last byte tell all tails apart |
| `SpookySeparation.LongTailsSeparate` | pxr/base/arch/hash.cpp:465-473 | messages of at least 192 bytes with the same whole blocks and equal final states are equal |
| `SpookySeparation.AbsorbKeepsApart` | pxr/base/arch/hash.cpp:443-463 | different states stay different under the same blocks |
| `SpookySeparation.LongOpeningsSeparate` | pxr/base/arch/hash.cpp:443-473 | whatever follows, equal final states come only from equal states behind the openings, also with different seeds |
| `SpookySeparation.ShortTailsSeparate` | pxr/base/arch/hash.cpp:364-409 | short messages with the same whole groups and different tails reach ShortEnd with different c and d |
| `SpookySeparation.ShortTailsSeparateAtEnd` | pxr/base/arch/hash.cpp:410-413 | and they still differ behind ShortEnd |
| `SpookySeparation.ShortOpeningsSeparate` | pxr/base/arch/hash.cpp:336-413 | short messages that go on alike reach equal states behind ShortEnd only from equal states behind openings of one length in whole sets of 32 bytes, also with different seeds |
| `SpookySeparation.SeedsSeparate` | pxr/base/arch/hash.cpp:313-475 | for no message, of any length, do different seeds reach the same state behind the last step |
| `SpookySeparation.EveryWordCounts` | pxr/base/arch/hash.cpp:313-475 | messages of one length, whatever it is, that differ only within one word of eight bytes reach different states behind the last step |
| `SpookySeparation.EveryByteCounts` | pxr/base/arch/hash.cpp:313-475 | so does every change of a single byte, in whole blocks, groups and tails |
| `CloseAllFiles.Process.CloseRetrying` | pxr/base/arch/daemon.cpp:77-82 | closing is repeated while interrupted; a failure is recorded unless the descriptor was not open |
| `CloseAllFiles.Process.ArchCloseAllFiles` | pxr/base/arch/daemon.cpp:28-104 | every descriptor below the limit and not listed is closed or failed, all others are untouched; without failures, under a limit below 2^31 what stays open is exactly what was open and is at or above the limit or listed, and without a limit the same with 256; the result and errno tell the last failure; the shortcut by the greatest listed descriptor skips nothing |
| `CloseAllFiles.ClosedExactly` | pxr/base/arch/daemon.cpp:61-93 | without failures exactly the listed ones and those at or above the limit as the loop reads it stay open |
| `CloseAllFiles.OrdinaryLimit` | pxr/base/arch/daemon.cpp:40-93 | without failures and under a limit below 2^31, exactly the listed ones and those at or above the limit stay open |
| `CloseAllFiles.ClosesAllIff` | pxr/base/arch/daemon.cpp:40-47 | under a limit below 2^31, only listed ones stay open if and only if every unlisted open one was below the limit |
| `CloseAllFiles.AboveLimitStaysOpen` | pxr/base/arch/daemon.cpp:40-61 | a descriptor that is not below the limit stays open, whatever was listed and whatever the limit |
| `CloseAllFiles.UnlimitedLeavesOpen` | pxr/base/arch/daemon.cpp:40-43 | without a limit, exactly the descriptors from 256 on stay open, and the listed ones |
| `CloseAllFiles.WideLimitClosesNothing` | pxr/base/arch/daemon.cpp:46 | a limit from 2^31 up to 2^32 closes nothing |
| `CloseAllFiles.WiderLimit` | pxr/base/arch/daemon.cpp:46 | of a limit from 2^32 on only the low 32 bits count |
| `LaunchProtocol.InvKept` | pxr/base/arch/debugger.cpp:181-329 | every step of every process keeps the invariant that relates pipe, write ends, reports and outcome |
| `LaunchProtocol.ReturnsTrueIff` | pxr/base/arch/debugger.cpp:187-221 | in every run in which the parent has returned, it returned true if and only if the callback replaced the process or returned true, or else the run lost a report by a kill or an empty write; never both, and never with a failed call |
| `LaunchProtocol.BenignRunTellsTheTruth` | pxr/base/arch/debugger.cpp:181-329 | if every report delivers a byte and nobody who owes one is killed, the parent returns true if and only if the callback replaced the process or returned true |
| `LaunchProtocol.AtMostOneReport` | pxr/base/arch/debugger.cpp:240-325 | in every run at most one report is written, and only after a failure |
| `LaunchProtocol.ReportedBeforeEnd` | pxr/base/arch/debugger.cpp:240-328 | in every benign run with a failure a byte has been delivered before the last write end closes |
| `LaunchProtocol.CallbackPrepared` | pxr/base/arch/debugger.cpp:236-318 | the callback is only called behind a setsid, a second fork, a closing of all files without failure and a chdir that worked, exactly three attempts to open /dev/null, and a mark on the pipe to close on exec |
| `LaunchProtocol.ParentLeavesNoPipe` | pxr/base/arch/debugger.cpp:187-221 | the parent returns with exactly the descriptors open that it was called with |
| `LaunchProtocol.ReadEndClosed` | pxr/base/arch/debugger.cpp:226-290 | until /dev/null is opened, no descendant behind its first step holds the read end |
| `LaunchProtocol.ParentNotStuck` | pxr/base/arch/debugger.cpp:208-214 | a reading parent has data, or the end of the pipe, or a descendant with steps to take |
| `LaunchProtocol.DescendantsRunOut` | pxr/base/arch/debugger.cpp:225-329 | the descendants take boundedly many steps |
| `LaunchProtocol.ParentGetsAnswer` | pxr/base/arch/debugger.cpp:204-221 | in every run from a reachable state, a parent that reads can read a byte or the end, or a descendant has a step of its own to take; after as many descendant steps as their rank, at most fifteen, it can read |
| `LaunchProtocol.LostReportMisleads` | pxr/base/arch/debugger.cpp:240-245 | a run in which a call fails and the callback never succeeds, as the child is killed before it reports, and in which the parent returns true |
| `OnceInit.InvKept` | pxr/base/arch/timing.cpp:37-64 | every step keeps the invariant, as long as the computation does not give -1 |
| `OnceInit.OnlyOnce` | pxr/base/arch/timing.cpp:37-64 | for any number of threads and stale but coherent loads: at most one computation in the run, the atomic only goes from -1 over -2 to its result, and that result is what threads return |
| `OnceInit.AllReturnTheValue` | pxr/base/arch/timing.cpp:37-64 | with non-negative results every thread that returns gives the result of the one computation in the run |
| `OnceInit.ComputesOnceIff` | pxr/base/arch/timing.cpp:49-55 | a computation that gives v runs at most once in all runs if and only if v is not -1 |
| `OnceInit.EveryThreadCanFinish` | pxr/base/arch/timing.cpp:37-64 | from every state of the invariant some run has the thread return the one value, the one still to be computed if none has been, so no state is a deadlock |
| `OnceInit.NewestLoadReleases` | pxr/base/arch/timing.cpp:55-63 | after the store of a non-negative value, in every run, a thread that has loaded the newest value has returned it |
| `OnceInit.NegativeNeverReleases` | pxr/base/arch/timing.cpp:58-62 | a stored negative value leaves a waiting thread waiting for ever |
| `OnceInit.ReleasedIff` | pxr/base/arch/timing.cpp:58-63 | the stored value can release a waiting thread if and only if it is not negative |
| `ChunkedIo.WrittenTwice` | pxr/base/arch/fileSystem.cpp:1022-1046 | two adjacent writes are one write |
| `ChunkedIo.WrittenBytes` | pxr/base/arch/fileSystem.cpp:1030-1047 | byte by byte: the written ones in their place, zeros in a gap, all others as they were, and none cut off |
| `ChunkedIo.File.ArchPRead` | pxr/base/arch/fileSystem.cpp:956-990 | against any short counts and interruptions: all that was asked for and is there, the file's bytes at the offset, the buffer untouched behind them, or -1 with a proper part read, also for a count of 0; no call asks for more than INT_MAX |
| `ChunkedIo.File.ArchPWrite` | pxr/base/arch/fileSystem.cpp:1019-1048 | the whole count and the file as after one write, or -1 and a proper part written |
| `AffineSpace.TransformMultiply` | pxr/base/gf/matrix4d.h:666-671 | transforming by a product is transforming by its factors in turn |
| `GfBBox3d.GfBBox3d.GetInverse` | pxr/base/gf/matrix4d.cpp:303-408 | the 4x4 cofactor code, on an affine matrix, gives its determinant and its affine inverse, or a scaling by the greatest float if it is singular within eps |
| `BBoxVolume.InverseBothWays` | pxr/base/gf/matrix4d.cpp:303-408 | a regular matrix undoes its inverse, and its inverse undoes it |
| `BBox3d.AlignedContains` | pxr/base/gf/bbox3d.cpp:52-84 | every transformed point lies in the aligned range |
| `BBox3d.CornerAttains` | pxr/base/gf/bbox3d.cpp:63-82 | each of the six bounds is attained at a corner of the box |
| `BBox3d.AlignedIsLeast` | pxr/base/gf/bbox3d.cpp:52-84 | every range that contains the image contains the aligned range |
| `BBoxLeast.AlignedEmptyIff` | pxr/base/gf/bbox3d.cpp:52-84 | the aligned range is empty if and only if the range is |
| `BBox3d.CombineInOrderCovers` | pxr/base/gf/bbox3d.cpp:140-156 | projecting into the space of a regular box loses no world point of either box |
| `BBoxLeast.CombineInOrderLeast` | pxr/base/gf/bbox3d.cpp:140-156 | in the space of a regular first box, a range contains the result if and only if it holds all world points of both boxes |
| `BBox3d.CombineCovers` | pxr/base/gf/bbox3d.cpp:86-138 | in all branches every world point of either box is in the result |
| `BBoxLeast.CombineIsLeast` | pxr/base/gf/bbox3d.cpp:86-138 | in every branch with two boxes that are not empty, the same in the space of the result: its range is the least one that holds both |
| `BBoxLeast.CombineEmpty` | pxr/base/gf/bbox3d.cpp:86-100 | with an empty box the result is the other one |
| `BBox3d.CombineAllCovers` | pxr/base/gf/bbox3d.cpp:86-138 | combining any list covers every member, and nothing but empty boxes gives an empty one |
| `BBox3d.CombineAligned` | pxr/base/gf/bbox3d.cpp:52-138 | the aligned range of the result contains those of both boxes |
| `BBoxVolume.DetMultiply` | pxr/base/gf/bbox3d.cpp:45-49 | the determinant of a product is the product of the determinants |
| `BBoxVolume.VolumeOfRange` | pxr/base/gf/bbox3d.cpp:39-50 | an aligned box has the product of its widths for volume |
| `BBoxVolume.VolumeMoved` | pxr/base/gf/bbox3d.cpp:39-50 | transforming a box multiplies its volume by the magnitude of the determinant |
| `BBoxVolume.HullVolume` | pxr/base/gf/bbox3d.cpp:45-84 | the aligned range has at least the volume of the box |
| `BBoxVolume.CombineInOrderGrows` | pxr/base/gf/bbox3d.cpp:140-156 | the combined box has at least the volume of either box |
| `BBoxVolume.CombineGrows` | pxr/base/gf/bbox3d.cpp:86-138 | combining never loses volume, in any branch |
| `BBoxVolume.CombineNearSmaller` | pxr/base/gf/bbox3d.cpp:117-133 | with two regular boxes the first candidate is the result unless the second is smaller by more than 10^-10 and a millionth of the bigger one; so the result is that near to the smaller one |
| `GfBBox3d.GfBBox3d.SetMatrices` | pxr/base/gf/bbox3d.cpp:22-37 | matrix, inverse and the degenerate flag agree afterwards; degenerate means a determinant of at most 10^-13 |
| `GfBBox3d.GfBBox3d.Transform` | pxr/base/gf/bbox3d.h:152-157 | the matrices are multiplied, the box stays valid, its world points are exactly the old ones moved by the matrix, and its volume is scaled by the determinant |
| `GfBBox3d.GfBBox3d.ComputeAlignedRange` | pxr/base/gf/bbox3d.cpp:52-84 | the double loop sums the smaller and the greater product of every row |
| `GfBBox3d.GfBBox3d.Combine` | pxr/base/gf/bbox3d.cpp:86-138 | a valid box that covers both, has the least range that does in its space, is at least as big as either, and joins the flags; an empty box adds nothing |
| `GfBBox3d.GfBBox3d.CombineInOrder` | pxr/base/gf/bbox3d.cpp:140-156 | the first box extended by the projection of the second, and by nothing else: its range is the least one that holds both |
| `DualQuaternion.RotateIsSandwich` | pxr/base/gf/quatd.cpp:121-129 | for every quaternion but zero, the formula for rotating a point is the product with the quaternion and its conjugate over the squared length |
| `DualQuaternion.TransformIsProduct` | pxr/base/gf/dualQuat.template.cpp:103-140 | for a unit a, Transform of v is the product a (1 + v e) a' with the conjugate of the real part and the negated conjugate of the dual part, which fixes the translation as well |
| `DualQuaternion.ProductComposes` | pxr/base/gf/dualQuat.template.cpp:125-140 | for unit real parts a product transforms as its factors do in turn, and its real part is a unit |
| `DualQuaternion.ListComposes` | pxr/base/gf/dualQuat.template.cpp:125-140 | the product of any list acts as the composition of its members |
| `DualQuaternion.PreservesDistances` | pxr/base/gf/dualQuat.template.cpp:136-140 | the distance of any two points is kept, whatever the length of the real part, unless it is zero |
| `DualQuaternion.TranslationUndo` | pxr/base/gf/dualQuat.template.cpp:96-123 | GetTranslation gives back what SetTranslation set |
| `DualQuaternion.InverseBothSides` | pxr/base/gf/dualQuat.template.cpp:76-94 | the inverse works from both sides whenever the real part is not zero |
| `DualQuaternion.InverseIff` | pxr/base/gf/dualQuat.template.cpp:76-94 | it does so if and only if the real part is not zero; otherwise it is the identity |
| `DualQuaternion.NormalizedLength` | pxr/base/gf/dualQuat.template.cpp:51-68 | a value that is long enough is normalised to the length (1, 0) |
| `DualQuaternion.NormalizedTimesLength` | pxr/base/gf/dualQuat.template.cpp:34-68 | a value is its length, both components, times its normalised value |
| `DualQuaternion.NormalizeTwiceIff` | pxr/base/gf/dualQuat.template.cpp:51-68 | normalising again changes nothing if and only if eps is at most 1, or the length is below eps, or the real part is a positive number and the dual part a number |
| `DualQuaternion.NormalizeTwiceFails` | pxr/base/gf/dualQuat.template.cpp:51-68 | a value of length 2 that changes when it is normalised again with eps 2 |
| `DualQuaternion.GfDualQuat.Normalize` | pxr/base/gf/dualQuat.template.cpp:51-68 | returns the old length and leaves a unit whose dual part is orthogonal to its real part and that, times that length, is the old value; the identity if the value was too short |
| `DualQuaternion.GfDualQuat.SetTranslation` | pxr/base/gf/dualQuat.template.cpp:96-101 | afterwards a unit has that translation, and its real part is what it was |
| `DualQuaternion.GfDualQuat.MultiplyBy` | pxr/base/gf/dualQuat.template.cpp:125-134 | afterwards it acts as its argument followed by what it was |
| `TemplateList.GetStartOfName` | pxr/base/arch/function.cpp:24-44 | the nested loops find the space outside of brackets, or the start |
| `TemplateNames.QualifiedNameFound` | pxr/base/arch/function.cpp:19-44 | from the end of a name with template arguments, nested and with spaces in them, its start is found behind the space in front of it |
| `TemplateNames.NameAtStartFound` | pxr/base/arch/function.cpp:19-44 | so is the start of a name with nothing in front, as constructors and destructors have it |
| `TemplateList.FormatTemplateList` | pxr/base/arch/function.cpp:129-148 | the list is printed with its separators and brackets; an empty one not at all |
| `TemplateList.GetTemplateList` | pxr/base/arch/function.cpp:109-127 | whenever the loop comes to an end, the result is what its turns have collected, or an exception |
| `TemplateRoundTrip.TurnTakesItem` | pxr/base/arch/function.cpp:116-124 | one turn takes exactly the last item off the list |
| `TemplateRoundTrip.RoundTrip` | pxr/base/arch/function.cpp:89-148 | for every map of proper names to types, in any order of iteration, printing behind a function, splitting and parsing gives the map back, unless an "=" comes after a " [with " of the function's own |
| `TemplateRoundTrip.SeparatedParses` | pxr/base/arch/function.cpp:89-127 | a list behind a function, with commas or semicolons between its items in any mix, is split off and parsed to its map |
| `TemplateRoundTrip.RoundTripIff` | pxr/base/arch/function.cpp:89-148 | all well-formed lists with an entry come back from behind a function if and only if no "=" comes after its first " [with " |
| `TemplateRoundTrip.LongNameLost` | pxr/base/arch/function.cpp:89-148 | behind a function with such an "=", no entry comes back whose name is longer than the function |
| `TemplateRoundTrip.EmptyListComesBackIff` | pxr/base/arch/function.cpp:89-148 | the empty list comes back if and only if the split-off part of the function holds no "=" |
| `TemplateRoundTrip.FunctionComesBackIff` | pxr/base/arch/function.cpp:89-101 | the function part comes back if and only if the function, with a space behind it, holds no " [with " |
| `TemplateHalting.HaltsIff` | pxr/base/arch/function.cpp:109-127 | the parser comes to an end if and only if it meets an "=" without a name at most once, or lacks a type at its start |
| `TemplateHalting.NamedHalts` | pxr/base/arch/function.cpp:109-127 | a list in which every "=" has a name is parsed |
| `TemplateHalting.RunsForever` | pxr/base/arch/function.cpp:109-127 | a list on which the parser never comes to an end |
| `TemplateList.GetNextIdentifier` | pxr/base/arch/function.cpp:163-195 | the position strictly advances, or the scan is over |
| `TemplateList.FilterTemplateList` | pxr/base/arch/function.cpp:201-219 | the scan ends and keeps exactly the elements whose names it has come upon |
| `TemplateArguments.ArgumentsIdentified` | pxr/base/arch/function.cpp:163-219 | for every name with template arguments nested to any depth, with or without spaces behind the commas, the identifiers the scan comes upon are exactly those that a recursion over the name's structure lists, without positions or searches |
| `TemplateArguments.PlainArgumentsSeenIff` | pxr/base/arch/function.cpp:163-219 | the scan comes upon the arguments without brackets, one by one and in order, if and only if in no list one of them stands behind an argument with brackets, and no comma comes before the first closing bracket of the first such argument |
| `TemplateArguments.FilterKeepsArguments` | pxr/base/arch/function.cpp:197-219 | for those names, what is kept of template parameters are exactly the elements that are arguments in the name |
| `TemplateArguments.FilterKeepsArgumentsIff` | pxr/base/arch/function.cpp:197-219 | for any name, this is so for all lists of template parameters if and only if the scan comes upon every argument without brackets; if no two of those are alike, only for those names |
| `TemplateArguments.SomeArgumentsLost` | pxr/base/arch/function.cpp:163-219 | two names of the form a member of a specialisation has, in which an argument is lost |
| `GlobRegex.Replace` | pxr/base/arch/regex.cpp:22-31 | replacing in place, from the left and without looking at what was put in, is replacing every occurrence |
| `GlobRegex.PassesTranslate` | pxr/base/arch/regex.cpp:33-40 | the three passes do not disturb one another: they translate character by character |
| `GlobRegex.GlobToRegex` | pxr/base/arch/regex.cpp:33-40 | the result is the translation of every character |
| `GlobRegex.TranslationDenotes` | pxr/base/arch/regex.cpp:33-40 | for patterns without other special characters the regular expression is well formed and matches exactly what the glob does |
| `GlobRegex.CStringOfTranslation` | pxr/base/arch/regex.cpp:33-40 | cutting the translation at its first NUL, as `c_str()` does, is translating what is left of the pattern when it is cut |
| `GlobRegex.GlobMatchesAnywhere` | pxr/base/arch/regex.cpp:106-182 | a compiled glob is found in a query exactly if the glob matches some part of it, both read up to their first NUL |
| `GlobRegex.SameLanguageIff` | pxr/base/arch/regex.cpp:33-40 | a pattern without `(`, `[`, `{`, `^`, `$` and the bar becomes an expression with the glob's meaning if and only if it holds neither "+" nor a backslash |
| `GlobRegex.PlusRepeats` | pxr/base/arch/regex.cpp:33-40 | the pattern `a+` becomes an expression that matches "aa", which the glob does not |
| `GlobRegex.BackslashEscapes` | pxr/base/arch/regex.cpp:33-40 | the pattern of a backslash and "+" becomes an expression that matches "+", which the glob does not |
| `CStrings.AsStrLen` | pxr/base/arch/stackTrace.cpp:367-377 | the length up to the first NUL, and 0 for a null pointer |
| `CStrings.AsStrCpy` | pxr/base/arch/stackTrace.cpp:379-391 | copies the text and its NUL, changes nothing else, and returns where the NUL is |
| `CStrings.AsNumDigits` | pxr/base/arch/stackTrace.cpp:447-460 | how long the decimal representation is, sign included |
| `CStrings.AsIToA` | pxr/base/arch/stackTrace.cpp:462-489 | writes exactly the decimal representation and a NUL, for every long but the smallest |
| `CStrings.ReadsBack` | pxr/base/arch/stackTrace.cpp:462-489 | what is printed reads back as the number |
| `CStrings.ShortestDecimal` | pxr/base/arch/stackTrace.cpp:447-489 | no other numeral for the number is shorter than the printed one |
| `CStrings.PrintsDistinctly` | pxr/base/arch/stackTrace.cpp:462-489 | different numbers print differently |
| `StackTraceName.CandidatesDiffer` | pxr/base/arch/stackTrace.cpp:556-567 | different suffixes give different names |
| `StackTraceName.CandidateIs` | pxr/base/arch/stackTrace.cpp:533-567 | the names are the directory, `/st_`, the program, a dot and the process id, and then nothing, .1, .2, ... |
| `StackTraceName.FirstFree` | pxr/base/arch/stackTrace.cpp:545-571 | among the first n + 1 names one is not among n taken ones; all before it are |
| `StackTraceName.WriteDefaultName` | pxr/base/arch/stackTrace.cpp:533-541 | the parts make up the default name, within the given length |
| `StackTraceName.TryNames` | pxr/base/arch/stackTrace.cpp:543-576 | the loop comes to an end at the first name that is not taken, or for lack of space |
| `StackTraceName.GetStackTraceName` | pxr/base/arch/stackTrace.cpp:510-577 | creates the first unused name in the order bare, .1, .2, ... and leaves it in the buffer; with too little space for it, or another error, it creates nothing; no write passes the length, and no descriptor stays open |

## Left out

- SpookyStream.Stream.Update: messages of 2^64 bytes or more in all, where `m_length` would wrap; the contract asks for less.
- ChunkedIo.File.ArchPRead: counts of 2^63 bytes or more, whose signed copy would be negative.
- ChunkedIo.File.ArchPWrite: counts of 2^63 bytes or more, as for reading.
- CStrings.AsIToA: the smallest long, which has no negative.
- StackTraceName.GetStackTraceName: more than 2^31 - 1 existing files, since the suffix is an int; other processes that create files, and changes of the temporary directory or the program name, during the search.
- TemplateList.GetStartOfName: a string that begins with `>`, on which the code reads in front of the string.
- SpookyHash.Hash128: the constants of the mixers are those of the code, row by row; no hash is worked out to a number.
- TemplateArguments.ArgumentsIdentified: arguments that start with text that holds a comma or a bracket of their own, as comparison operators and function types can have.
- TemplateList.GetTemplateList: the lists on which the loop does not end; `TemplateHalting.HaltsIff` says which they are.
- GlobRegex.TranslationDenotes: `regcomp` and `regexec` are not modelled; a small syntax of extended regular expressions with a direct meaning takes their place. The flag CASE_INSENSITIVE and the error for an empty pattern are not covered.
- GlobRegex.SameLanguageIff: patterns with `(`, `[`, `{`, `|`, `^` or `$`, since groups, brackets, intervals, bars and anchors are outside of the small syntax. Of what section 9.4 leaves undefined, a "+" without anything to repeat counts as an error, and a backslash in front of an ordinary character is dropped.
- LaunchProtocol.ReturnsTrueIff: a callback that closes or duplicates the pipe, forks or does not come to an end.
- DualQuaternion.GfDualQuat.Normalize: a zero real part with an eps that is not positive, where the code divides by zero.
- CloseAllFiles.UnlimitedLeavesOpen: Darwin, whose RLIM_INFINITY is another number.
- The Windows, Darwin and WebAssembly branches, and everything that only wraps a system call.
- Rounding of floating-point numbers, infinities and NaN; square roots are given.
- Matrices whose last column is not (0, 0, 0, 1): boxes are modelled with affine ones.
- The switch of the hash for machines without unaligned reads, `Hash64`, `Hash32` and the wrappers around them.
- `ArchGetPrettierFunctionName`, `_GetFunctionName` and the demangling of names: heuristics without a stated result.
- `Arch_MeasureExecutionTime`, `ArchExpandEnvironmentVariables` and the other functions of the modelled files that are not in the table.
