# pmt: a verified model of its hard parts

This project models the parts of the partition manager (`pmt`) whose correctness is not visible from reading
one function, and proves what they are for. Each module follows one component.

| module | what it models |
|---|---|
| `ScatterGather`, `BlockModes` | the scatter/gather block walk carried in the BoringSSL patches, over one byte array as memory |
| `CmdLine`, `CmdLineRun`, `CmdLineExact`, `CmdLineEarly`, `CmdLineValues`, `CmdLineApp` | the command-line parser: its token machine, what every run keeps, exactly what each token does, the first pass over early options, the values set, and the `App` object |
| `HelpText` | wrapping of option descriptions |
| `UniqueFd` | ownership of descriptors by `UniqueFD` objects over a kernel table |
| `Silencing`, `SilencingRuns` | `Silencer` objects redirecting stdout and stderr over one descriptor table, and what any run of them leaves |
| `AsyncManager` | tasks on detached threads, results through futures |
| `PartitionIo` | `dump`, `write`, `openpart_wipe`, `openpart_checksum` under short reads and writes |
| `Magic` | magic numbers and the little-endian search for them |
| `LpMetadata` | the logical-partition table: registration, free space, consistency checks |
| `DevicePath` | partition device names |
| `Common`, `Arithmetic` | shared types and facts about division |

## How the models are built

- Code that changes things step by step is imperative here: the walk, the token loops, the I/O loops and the
  objects are methods with loops and invariants, each tied to a specification function or predicate. What the
  source promises is then proved of that specification: over whole runs, all schedules, all chunk lists. A
  specification function that recurs is itself pinned down, by laws that determine it or by what it means
  in terms of its inputs.
- What the environment chooses is an input: the descriptor an open returns, how much each read and write
  transfers or that it fails (`Turn`), which task completes next (`Event`). Where an infinite loop is possible
  in the source (a read that returns 0), the model's loop ends as `Running` when its schedule runs out, and
  completion is proved for schedules that make progress.
- Machine width is written out where it decides something: `size_t` sums, the 64-bit byte counters of `dump`,
  64-bit group and extent arithmetic, 32-bit extent and partition indices, 64-bit magics.
- Errors are results, not preconditions: `Failed`, `Thrown`, `Err`, `Missing`, `ReadError`.

## Findings

Properties that do not hold of the code as it is written, each with its exact condition and, where it can fail, an
input on which it does:

- The first pass over the command line agrees with the second if and only if the program name is harmless (not
  empty, and not the name of an early option: the first pass reads it as a token) and no option name was resolved in
  a subcommand that also names an early option of the application (`TwoPassAgreement`; `SharedNameDisagrees`,
  `DashProgramDisagrees`).
- The first pass applies the defaults of all the application's options, not only of early ones, and rewrites the
  default values in place. `ParseTwice` says exactly when both passes return; then the default of an option unused in
  both has been transformed twice, which makes a difference if and only if the second transformation changes the
  value, that of an option used only in the second pass has been transformed once, and that of one used in the first
  not at all. `TransformsTwice` is an application on which it makes a difference.
- `dump` does not notice a read that fails with anything but EPERM: the "-1 bytes" are handed to `write`, which
  fails with the same -1, and the loop goes on. When it returns true, the file is the partition if and only if
  that never happened (`Dump`); `DumpTrueOnWrongFile` is a schedule on which it returns true on a wrong file.
- `write` returns true if and only if the image fills the partition; its padding counts as bytes written (`Write`).
- Adopting a raw descriptor keeps ownership sound if and only if it is negative, or open and not owned yet
  (`AdoptExactly`); otherwise the second destructor closes a closed descriptor (`AdoptOwnedClosesTwice`).
- Once no Silencer is active, stdout, stderr, cout and cerr are restored if and only if the marks kept from the
  operations say so: a start saves what is current, a stop gives back what its start saved (`SilencingExactly`).
  Well-nested runs without failures always restore (`NestedSilencing`); stopping the outer of two first does not
  (`OutOfOrderLeavesSilence`), stopping three in the order 2, 3, 1 does (`OutOfOrderMayRestore`), and a failed
  duplication of stdout is never undone (`FailedDuplicationLeavesSilence`). No order leaks a descriptor.
- `getResults` has the results of all tasks added if and only if all had been started when it was first called
  (`NothingLostExactly`); `LosesATask` is a schedule that loses one.
- Metadata is sound if and only if `validMetadata` accepts it and none of the sums it compares wraps around
  (`AcceptedMeans`); each of the three checks has an input that wraps past it (`GroupCheckWraps`,
  `ExtentCheckWraps`, `RangeCheckWraps`).
- `hasMagic` on a read shorter than the magic searches on over the zeros behind what was read, and reads past its
  buffer if and only if the encoding does not occur there (`HasMagic`).
- Two partitions of different tables have the same device path if and only if one table's path is the other's
  followed by `p`, the other ending in a digit (`PathsDistinguish`).

Where comments and code disagree, the model follows the code: `GetAndRemoveSuffix` returns a span into the list
only when the bytes lie in the last non-empty chunk, not whenever they lie in one chunk, and it collects into
`suffix_buf` (there is no `out`); the comment in `ForEachBlockRange` that at least two non-empty chunks are left
after trimming holds neither for the number of chunks nor for the first one.

## Model

| member | source | states |
|---|---|---|
| ScatterGather.ForEachBlockRange | external/patches/boringssl/src/crypto/fipsmodule/cipher/internal.h:287-415 | on every chunk list, also in place: the calls are a walk over the concatenated input as it was on entry (whole calls are positive block multiples, one final call, last, non-empty iff the input is; a stopped walk saw a prefix); a completed walk leaves the output regions holding the callbacks' outputs in call order; nothing else changes; composing callbacks give the result of one final call on the contiguous input |
| ScatterGather.Walk | external/patches/boringssl/src/crypto/fipsmodule/cipher/internal.h:314-414 | the loops end, both asserts hold with empty chunks anywhere, and the walk they make is finished: called, stored and framed as above |
| ScatterGather.CollectBlock | external/patches/boringssl/src/crypto/fipsmodule/cipher/internal.h:347-389 | looking ahead over chunk ends yields the next input bytes: a full block with at least one byte left behind it, or everything that was left |
| ScatterGather.CallNext | external/patches/boringssl/src/crypto/fipsmodule/cipher/internal.h:330-339 | whole blocks inside one chunk are handed over where they lie, and the position moves past them |
| ScatterGather.CallOnChunk | external/patches/boringssl/src/crypto/fipsmodule/cipher/internal.h:290-297 | the callback sees the chunk's bytes as they were before it wrote, and its output lands on the chunk's output range only |
| ScatterGather.CallOnBlock | external/patches/boringssl/src/crypto/fipsmodule/cipher/internal.h:390-405 | an assembled block goes to the callback and its output is scattered over exactly the addresses the block was read for |
| ScatterGather.CopySpanToIOVec | external/patches/boringssl/src/crypto/fipsmodule/cipher/internal.h:251-263 | the bytes are stored at the first output addresses of the list from the given position on, and nowhere else |
| ScatterGather.Job.OneMoreCall | external/patches/boringssl/src/crypto/fipsmodule/cipher/internal.h:266-280 | one more call on the next bytes keeps the walk's invariant, whatever was written so far, in place or not; any failed or final call finishes it |
| ScatterGather.WholeCallsThenFinal | external/patches/boringssl/src/crypto/fipsmodule/cipher/internal.h:266-281 | after any number of whole calls, a final call on the rest agrees with one final call on everything |
| ScatterGather.AddrsAt | external/patches/boringssl/src/crypto/fipsmodule/cipher/internal.h:251-263 | byte j of chunk i is read from, or written to, that chunk's j-th address, at its place behind the chunks before it |
| ScatterGather.WalkIsOneFinalCall | external/patches/boringssl/src/crypto/fipsmodule/cipher/internal.h:266-281 | any walk by composing callbacks has the outcome of one final call on the contiguous input |
| ScatterGather.ChunkingIndependence | external/patches/boringssl/src/crypto/fipsmodule/cipher/internal.h:266-281 | two walks over the same bytes, however they were cut into chunks, agree in state and output |
| BlockModes.BlockwiseComposes | external/patches/boringssl/src/crypto/fipsmodule/cipher/internal.h:266-281 | every mode that works block by block, with any carried state and any treatment of the last block, satisfies the composition law |
| BlockModes.BlockwiseSized | external/patches/boringssl/src/crypto/fipsmodule/cipher/internal.h:276-279 | a mode whose blocks come out as long as they go in can be walked with WriteOut |
| BlockModes.TransformInPlace | external/patches/boringssl/src/crypto/fipsmodule/cipher/internal.h:266-415 | for any block mode, in place, on any chunk list: the input's full blocks go through `step` in order, the tail of one byte to a block through `last`; it succeeds iff all of them do; then the chunks hold their outputs in order and the state is what `last` leaves; nothing outside the chunks changes |
| BlockModes.LastBlocksMeans | external/patches/boringssl/src/crypto/fipsmodule/cipher/internal.h:266-281 | what one final call on a contiguous buffer is for a block mode, block by block |
| ScatterGather.InPlaceIsNonInterfering | external/patches/boringssl/src/crypto/fipsmodule/cipher/internal.h:276-279 | operating in place on distinct bytes is one of the layouts the walk is proved for |
| ScatterGather.IsValid | external/patches/boringssl/src/crypto/fipsmodule/cipher/internal.h:165-183 | true iff there are at most the allowed number of chunks and their mathematical sum fits in size_t |
| ScatterGather.TotalLength | external/patches/boringssl/src/crypto/fipsmodule/cipher/internal.h:185-194 | the wrapped sum, which is the exact sum iff that fits in size_t |
| ScatterGather.GetAndRemoveSuffix | external/patches/boringssl/src/crypto/fipsmodule/cipher/internal.h:196-240 | nullopt iff the list is too short, and then every chunk is left empty; otherwise the list keeps its addresses but the last n, on both sides, and the bytes returned are those removed; copied iff they are not all in the last non-empty chunk |
| ScatterGather.CollectSuffix | external/patches/boringssl/src/crypto/fipsmodule/cipher/internal.h:225-239 | the collecting path fills the buffer from its end with exactly the last bytes of the list while taking them off |
| ScatterGather.TakenMore | external/patches/boringssl/src/crypto/fipsmodule/cipher/internal.h:227-237 | shortening the last chunk in use takes exactly the next addresses off the end of the list |
| ScatterGather.ShrinkLast | external/patches/boringssl/src/crypto/fipsmodule/cipher/internal.h:221-223 | the part cut from the last non-empty chunk is where the returned span points |
| CmdLine.FindOption | srclib/libhelper/include/libhelper/cmdline.hpp:898-906 | the first option listing the name, or none iff no option lists it |
| CmdLineRun.GetPositionalIsNth | srclib/libhelper/include/libhelper/cmdline.hpp:909-920 | the lookup by index gives the n-th positional in declaration order |
| CmdLineRun.LookupResolves | srclib/libhelper/include/libhelper/cmdline.hpp:1327-1331 | the option found is that of the innermost active subcommand declaring the name, the application's only if no active subcommand does, none only if nobody does |
| CmdLineExact.UnknownExactly | srclib/libhelper/include/libhelper/cmdline.hpp:1332 | "unknown option" is raised iff neither the active chain nor the application declares the name |
| CmdLineExact.DashTokenExactly | srclib/libhelper/include/libhelper/cmdline.hpp:1315-1348 | every outcome of a dash token: unknown, value missing, rejected, or the whole new state, with which option, which raw value ("true", behind the first '=', or the next token, which is no dash token), how many tokens, and the transformed value that passed checker and setter |
| CmdLineExact.StepExactly | srclib/libhelper/include/libhelper/cmdline.hpp:1301-1315 | help comes first and is about the innermost active subcommand; an empty token is an error; other dash tokens name options |
| CmdLineExact.PositionalTokenExactly | srclib/libhelper/include/libhelper/cmdline.hpp:1351-1369 | every outcome of a positional token: unexpected, rejected, or the whole new state, in which the innermost level with a positional left, else the application, has filled its next one with the transformed value |
| CmdLineExact.UnexpectedExactly | srclib/libhelper/include/libhelper/cmdline.hpp:1366-1369 | a positional token is unexpected iff neither an active level nor the application has a positional left |
| CmdLineRun.PositionalLevelTakes | srclib/libhelper/include/libhelper/cmdline.hpp:1353-1364 | the level search picks the innermost level with a positional left |
| CmdLineExact.PlainTokenExactly | srclib/libhelper/include/libhelper/cmdline.hpp:1306-1313 | a plain token enters the first declared subcommand of its name, top-level while none is active, else of the innermost active one; it is a positional iff there is none of that name |
| CmdLineRun.FindCommandIsFirst | srclib/libhelper/include/libhelper/cmdline.hpp:796-800 | the first subcommand with the name is found |
| CmdLineRun.StepKeeps | srclib/libhelper/include/libhelper/cmdline.hpp:1298-1370 | every iteration keeps the run invariant and consumes exactly the tokens it acted on |
| CmdLineRun.ParseRun | srclib/libhelper/include/libhelper/cmdline.hpp:1294-1370 | for every successful run: each token is consumed once, in order; the active chain is a root-to-descendant path and the subcommands found are exactly it; at most one is top-level; each level filled a declaration-order prefix of its positionals, none twice; cursors add up to the positional tokens |
| CmdLineRun.LoopKeepsUntilHelp | srclib/libhelper/include/libhelper/cmdline.hpp:1301-1304 | a run that shows help kept the invariant up to the help token, and the help is about the innermost active subcommand |
| CmdLineValues.ParseValues | srclib/libhelper/include/libhelper/cmdline.hpp:1298-1370 | after a run of `parse`, however it ends, every option newly used holds the transform of the raw value of the last token that set it, which checker and setter let pass; all others hold what they did |
| CmdLineValues.EarlyValues | srclib/libhelper/include/libhelper/cmdline.hpp:1228-1271 | the same after a run of the first pass |
| CmdLineValues.EarlyStepExactly | srclib/libhelper/include/libhelper/cmdline.hpp:1232-1270 | every outcome of a token in the first pass, strict or not |
| CmdLine.Spec.LoopUnfolds | srclib/libhelper/include/libhelper/cmdline.hpp:1298-1370 | the loop ends when no token is left or an iteration stops it, and otherwise goes on behind the tokens consumed |
| CmdLineEarly.Synchronised | srclib/libhelper/include/libhelper/cmdline.hpp:1228-1271 | over the tokens of a successful run, the first pass has one event for each early event and one for each shadowed name, and can only fail at a shadowed name |
| CmdLineEarly.TwoPassAgreement | srclib/libhelper/include/libhelper/cmdline.hpp:1228-1370 | for every program name: whenever `parse` gets through its tokens, the first pass succeeds with exactly its early (option, value) events iff the program name is harmless and no option name was resolved in a subcommand that also names an early option |
| CmdLineEarly.TwoPassAgreementWithoutSharedNames | srclib/libhelper/include/libhelper/cmdline.hpp:1228-1370 | with no shared names declared, the passes agree on a successful run iff the program name is harmless |
| CmdLineEarly.ProgramToken | srclib/libhelper/include/libhelper/cmdline.hpp:1229-1254 | a harmless program name is skipped by the first pass; any other fails it or leaves an event of its own |
| CmdLineEarly.NothingShadowed | srclib/libhelper/include/libhelper/cmdline.hpp:1327-1331 | without shared names no run shadows an early option |
| CmdLineEarly.EarlyActionsAppend | srclib/libhelper/include/libhelper/cmdline.hpp:1228-1370 | the early events of a run are those of its parts, in order |
| CmdLineEarly.EarlyActionsOne | srclib/libhelper/include/libhelper/cmdline.hpp:1228-1370 | a single action is an early event or none |
| CmdLineEarly.SharedNameDisagrees | srclib/libhelper/include/libhelper/cmdline.hpp:1244-1253 | a declaration and arguments on which the passes set different options |
| CmdLineEarly.DashProgramDisagrees | srclib/libhelper/include/libhelper/cmdline.hpp:1229-1232 | a program name that names an early option sets it in the first pass |
| CmdLineApp.App.constructor | srclib/libhelper/include/libhelper/cmdline.hpp:885-895 | a new application has nothing found, used or set |
| CmdLineApp.App.DoToDoList | srclib/libhelper/include/libhelper/cmdline.hpp:418-424 | an option counts as used, with its transformed value, iff the transformer takes the raw value and checker and setter take what it makes of it; else nothing changes |
| CmdLineApp.App.FindInChain | srclib/libhelper/include/libhelper/cmdline.hpp:1327-1331 | the reverse walk along the chain is the innermost-first lookup |
| CmdLineApp.App.TakePositional | srclib/libhelper/include/libhelper/cmdline.hpp:1351-1364 | the descending level loop picks the specified level and moves its cursor only |
| CmdLineApp.App.OptionToken | srclib/libhelper/include/libhelper/cmdline.hpp:1315-1349 | what the object does with a dash token is the specified step, errors included |
| CmdLineApp.App.PositionalToken | srclib/libhelper/include/libhelper/cmdline.hpp:1351-1369 | what the object does with a positional token is the specified step; on a rejected value the cursor has moved already |
| CmdLineApp.App.OneToken | srclib/libhelper/include/libhelper/cmdline.hpp:1298-1370 | one iteration on the object is one step of the token machine |
| CmdLineApp.App.TokenLoop | srclib/libhelper/include/libhelper/cmdline.hpp:1289-1370 | the index loop over the arguments refines the token machine: same ending, same fields, same chain |
| CmdLineApp.App.CheckRequired | srclib/libhelper/include/libhelper/cmdline.hpp:1398-1403 | no error iff waived or every required option is used; the error names one that is not |
| CmdLineApp.App.ValidateGroup | srclib/libhelper/include/libhelper/cmdline.hpp:667-685 | true iff the number of used members lies within the bounds that are set |
| CmdLineApp.App.ApplyDefaults | srclib/libhelper/include/libhelper/cmdline.hpp:1406-1412 | succeeds iff every due default can be transformed and set; then exactly those have been, and the error names one that cannot |
| CmdLineApp.App.FinishLevel | srclib/libhelper/include/libhelper/cmdline.hpp:1387-1413 | an active subcommand passes iff its demands are met or waived and its defaults can be set |
| CmdLineApp.App.FinishParse | srclib/libhelper/include/libhelper/cmdline.hpp:1372-1414 | the checks pass iff all demands are met; then exactly the defaults due in the application and the chain are applied; otherwise the error blames a demand that really is not met |
| CmdLineApp.App.Parse | srclib/libhelper/include/libhelper/cmdline.hpp:1288-1415 | `parse` returns normally iff the token loop gets through and all demands on the application and the active chain are met; with the state it leaves in every case |
| CmdLineApp.NormalReturnMeans | srclib/libhelper/include/libhelper/cmdline.hpp:1372-1414 | `parse`'s checks pass iff, of the application and every active subcommand, each required option is used, each group's number of used members is within its bounds, each unused default can be transformed and set, and a required nested subcommand is there; a superior used below lifts the first and the last for a subcommand |
| CmdLineApp.UsedCountIs | srclib/libhelper/include/libhelper/cmdline.hpp:670-672 | the count is the number of listed members that are used |
| CmdLineApp.App.EarlyTokens | srclib/libhelper/include/libhelper/cmdline.hpp:1228-1271 | the first pass's loop over the whole argument vector refines its token machine |
| CmdLineApp.App.ParseEarlies | srclib/libhelper/include/libhelper/cmdline.hpp:1228-1285 | the first pass returns iff its token machine does, the required early options are used and the application's defaults can be set, which are then applied |
| CmdLineApp.App.ParseTwice | src/Main.cpp:134-151 | both passes return iff the first gets through and the second, from the options used and defaults rewritten by the first, does; then each default of the application has been transformed not at all, once or twice as its option was used in the first pass, only in the second, or in neither |
| CmdLineApp.TransformsTwice | src/Main.cpp:134-151 | an application and arguments on which both passes return and a default is set transformed twice |
| CmdLineApp.WaivedMeans | srclib/libhelper/include/libhelper/cmdline.hpp:852-858 | on a run, a superior is used below an active subcommand iff one of an active subcommand at its own level or deeper is |
| CmdLineApp.FullPathSpellsChain | srclib/libhelper/include/libhelper/cmdline.hpp:816 | the path of a top-level subcommand is its name, and each one below adds a space and its own |
| HelpText.PrintAlignedOption | srclib/libhelper/include/libhelper/cmdline.hpp:923-943 | ends; below the left part comes each text of a wrapping behind eight spaces, or an empty line for an empty description; every text is 1 to 67 characters and rejoining them with the skipped spaces gives the description back |
| HelpText.LineLengths | srclib/libhelper/include/libhelper/cmdline.hpp:927-939 | each line takes all that is left if at most 67 characters, else up to the last space within reach, else 67 |
| HelpText.RejoinAppend | srclib/libhelper/include/libhelper/cmdline.hpp:938-939 | undoing a break puts back the one space skipped |
| HelpText.NextLine | srclib/libhelper/include/libhelper/cmdline.hpp:927-939 | each line is cut at the last space that keeps it within the width, at the width when there is none, and takes all that is left when that fits |
| HelpText.WrappedRejoins | srclib/libhelper/include/libhelper/cmdline.hpp:927-939 | undoing the breaks of any wrapping gives back the text wrapped so far |
| HelpText.WrappedUnique | srclib/libhelper/include/libhelper/cmdline.hpp:927-939 | the wrapping rule determines the lines |
| HelpText.BreaksAtSpaces | srclib/libhelper/include/libhelper/cmdline.hpp:931-934 | a description without overlong words is broken only at spaces |
| UniqueFd.OwnershipOverRuns | srclib/libhelper/include/libhelper/management.hpp:448-676 | over every run on any number of objects: no close hits a descriptor that is not open, none is closed twice, every descriptor that had an owner has exactly one or is closed; all are closed exactly once when the objects are gone |
| UniqueFd.StepKeeps | srclib/libhelper/include/libhelper/management.hpp:448-676 | every operation keeps the ownership invariant |
| UniqueFd.AdoptExactly | srclib/libhelper/include/libhelper/management.hpp:480-496 | adopting a raw descriptor keeps ownership sound iff it is negative, or open and not owned |
| UniqueFd.AdoptOwnedClosesTwice | srclib/libhelper/include/libhelper/management.hpp:480-506 | adopting an owned descriptor makes the second destructor close a closed one |
| UniqueFd.Pool.Do | srclib/libhelper/include/libhelper/management.hpp:448-676 | every operation on real objects is the step of the same name on the abstract world |
| UniqueFd.Pool.DoAll | srclib/libhelper/include/libhelper/management.hpp:448-676 | any run on real objects comes to what the run on the abstract world does |
| UniqueFd.RunAppends | srclib/libhelper/include/libhelper/management.hpp:448-676 | runs are legal, and go on, one operation at a time |
| UniqueFd.UniqueFD.Opening | srclib/libhelper/include/libhelper/management.hpp:460-472 | the opened descriptor is held, with path, flags and mode stored |
| UniqueFd.UniqueFD.Moving | srclib/libhelper/include/libhelper/management.hpp:448-451 | the new object holds what the other held, and the other nothing |
| UniqueFd.UniqueFD.Destroy | srclib/libhelper/include/libhelper/management.hpp:499-506 | the held descriptor is closed; a negative one is left alone |
| UniqueFd.UniqueFD.Open | srclib/libhelper/include/libhelper/management.hpp:538-545 | opens the stored path unless something is open |
| UniqueFd.UniqueFD.OpenPath | srclib/libhelper/include/libhelper/management.hpp:555-584 | while something is open not even the stored path changes |
| UniqueFd.UniqueFD.ReOpen | srclib/libhelper/include/libhelper/management.hpp:587-595 | closes first, then opens; true iff the open succeeded |
| UniqueFd.UniqueFD.Close | srclib/libhelper/include/libhelper/management.hpp:597-606 | closes what is held and forgets it |
| UniqueFd.UniqueFD.MoveFrom | srclib/libhelper/include/libhelper/management.hpp:665-676 | closes its own, takes the other's, empties the other; self-assignment changes nothing |
| SilencingRuns.SilencingExactly | srclib/libhelper/include/libhelper/management.hpp:1025-1067 | on every possible run of any number of Silencers, in any order, opens and duplications failing or not: stdout, stderr, cout and cerr are exactly what the marks kept from the operations say, hence originals iff the marks say original; once none is active no descriptor has leaked, and everything is restored iff all marks say original |
| SilencingRuns.NestedSilencing | srclib/libhelper/include/libhelper/management.hpp:1025-1067 | on every well-nested run without failures, stdout, stderr and the stream buffers are the originals iff none is active, and then the whole descriptor table is |
| SilencingRuns.StepKeeps | srclib/libhelper/include/libhelper/management.hpp:1025-1067 | every start and stop keeps the invariant: the streams are where the marks say, each active Silencer keeps what its mark says on descriptors of its own, and nothing else is open or changed |
| SilencingRuns.Stage.Do | srclib/libhelper/include/libhelper/management.hpp:1025-1067 | an operation on one of any number of real Silencers is the step of the same name, and changes no other |
| SilencingRuns.RunAppends | srclib/libhelper/include/libhelper/management.hpp:1025-1067 | runs and marks go on one operation at a time |
| SilencingRuns.SilenceEffect | srclib/libhelper/include/libhelper/management.hpp:1025-1041 | what one start leaves, with any of its opens and duplications failing |
| SilencingRuns.StopEffect | srclib/libhelper/include/libhelper/management.hpp:1044-1067 | a stop closes exactly the descriptors held, and gives back what was duplicated |
| SilencingRuns.StopUndoesSilence | srclib/libhelper/include/libhelper/management.hpp:1025-1067 | from any reachable state, a start and a stop of the same Silencer restore the table and buffers as they were before |
| SilencingRuns.OutOfOrderLeavesSilence | srclib/libhelper/include/libhelper/management.hpp:1044-1067 | two Silencers stopped outer first leave stdout and cout on the outer one's null file with none active |
| SilencingRuns.OutOfOrderMayRestore | srclib/libhelper/include/libhelper/management.hpp:1044-1067 | an order that is not well nested and restores everything |
| SilencingRuns.FailedDuplicationLeavesSilence | srclib/libhelper/include/libhelper/management.hpp:1037-1039 | when stdout cannot be duplicated, stopping leaves it on /dev/null |
| Silencing.Silencer.Silence | srclib/libhelper/include/libhelper/management.hpp:1025-1041 | repeated silencing changes nothing; otherwise table, buffers and saved fields are as specified, whichever opens and duplications fail |
| Silencing.Silencer.Stop | srclib/libhelper/include/libhelper/management.hpp:1044-1067 | repeated stopping changes nothing; otherwise what was saved is put back and its descriptors closed, also after a partly failed start |
| AsyncManager.ScheduleIndependence | srclib/libhelper/include/libhelper/management.hpp:208-234 | for every interleaving of completions, the results are those of the tasks started before the first getResults, each once, in the order added; two schedules with the same calls give the same |
| AsyncManager.NoDeadlock | srclib/libhelper/include/libhelper/management.hpp:228-234 | a waiting getResults can always go on, or the task it waits for can complete |
| AsyncManager.StepRefines | srclib/libhelper/include/libhelper/management.hpp:208-234 | every step of the concurrent machine is a step of the sequential one |
| AsyncManager.RunRefines | srclib/libhelper/include/libhelper/management.hpp:208-234 | every schedule refines its calls made one after the other |
| AsyncManager.RunAppends | srclib/libhelper/include/libhelper/management.hpp:208-234 | schedules are possible, and go on, one event at a time |
| AsyncManager.CallsAppend | srclib/libhelper/include/libhelper/management.hpp:208-234 | the calls of a schedule are those of its parts, in order |
| AsyncManager.CallsOne | srclib/libhelper/include/libhelper/management.hpp:208-234 | completions and waiting are no calls |
| AsyncManager.LateTasksAreLost | srclib/libhelper/include/libhelper/management.hpp:228-234 | no later call adds to what is collected |
| AsyncManager.NothingLostExactly | srclib/libhelper/include/libhelper/management.hpp:208-234 | on every schedule, the collected results are those of all tasks added iff all had been started when results were first asked for |
| AsyncManager.LosesATask | srclib/libhelper/include/libhelper/management.hpp:208-234 | a possible schedule on which a completed task's result is never collected |
| AsyncManager.Manager.AddProcess | srclib/libhelper/include/libhelper/management.hpp:208-211 | the task is queued behind those added before |
| AsyncManager.Manager.StartAllTasks | srclib/libhelper/include/libhelper/management.hpp:214-220 | each queued task gets a future, in order, and the queue is emptied |
| AsyncManager.Manager.GetResults | srclib/libhelper/include/libhelper/management.hpp:228-234 | collected once, in order; later calls return the same |
| AsyncManager.Manager.Finalize | srclib/libhelper/include/libhelper/management.hpp:246-261 | false before results; true iff no task failed; otherwise an error of the messages of exactly the failing results, in order, a line each; and exactly the succeeding results' messages are printed, in order |
| AsyncManager.SelectionsAre | srclib/libhelper/include/libhelper/management.hpp:251-257 | the messages selected are those at exactly the places with the outcome, in increasing order |
| AsyncManager.LinesAppend | srclib/libhelper/include/libhelper/management.hpp:253 | each message adds itself and a line end |
| AsyncManager.Manager.Call | srclib/libhelper/include/libhelper/management.hpp:276-279 | true iff every task started in time succeeded, else the messages of exactly the failing ones, in the order added; exactly the succeeding ones' are printed |
| PartitionIo.Partition.ReadAt | srclib/libopenpart/src/io.c:205-219 | a read fills the buffer's front with the device's bytes at the offset, as many as it returns, and leaves the rest; past the end of the device it is short |
| PartitionIo.Partition.WriteAt | srclib/libopenpart/src/io.c:221-240 | a write replaces as many device bytes as it returns, none when refused, failed or at the end of the device; past the end it is short |
| PartitionIo.Dump | srclib/libpartition_map/include/libpartition_map/partition.hpp:312-343 | without unnoticed read failures the file is at every moment a prefix of the partition, and all of it on true; when true, equal iff no such failure; completes on progress; and in every case the outcome is that of the loop's specification |
| PartitionIo.DumpMeans | srclib/libpartition_map/include/libpartition_map/partition.hpp:323-342 | the same properties of the specification, for all schedules |
| PartitionIo.DumpTrueOnWrongFile | srclib/libpartition_map/include/libpartition_map/partition.hpp:326-342 | for every content of a 3-byte partition, a schedule on which dump returns true with a longer file |
| PartitionIo.Write | srclib/libpartition_map/include/libpartition_map/partition.hpp:346-391 | on return: the image, then zeros, the rest of the device untouched, true iff the image fills the partition; cut short: a prefix of that; too large an image changes nothing; completes on progress |
| PartitionIo.CopyImage | srclib/libpartition_map/include/libpartition_map/partition.hpp:360-371 | for every schedule of short reads the copied part is a prefix of the image; it throws only on a turn that fails to read or write in full, and is left running only when no turn is left |
| PartitionIo.PadWithZeros | srclib/libpartition_map/include/libpartition_map/partition.hpp:373-385 | short writes included, zeros end exactly at the partition's size |
| PartitionIo.Copy | srclib/libpartition_map/include/libpartition_map/partition.hpp:312-391 | round trip: dump then write reproduces the contents, zero-padded, for any buffer size and schedules without unnoticed failures; and succeeds on progress when there is room |
| PartitionIo.Wipe | srclib/libopenpart/src/utility.c:32-64 | every byte up to the size zero, none beyond touched; a prefix when cut short; nothing without write permission; completes on progress |
| PartitionIo.StreamOver | srclib/libopenpart/src/utility.c:97-134 | for any short reads and any streaming hash: one update over the whole partition |
| PartitionIo.Crc32Append | srclib/libopenpart/src/utility.c:84-93 | the complements between calls cancel: chunked CRC-32 is the CRC of the concatenation |
| PartitionIo.Crc32Streams | srclib/libopenpart/src/utility.c:84-93 | CRC-32 of section 8 of RFC 1952 is a streaming update |
| PartitionIo.TableEntries | srclib/libopenpart/src/utility.c:84-93 | the CRC table of section 8 of RFC 1952, at the single bits that determine it |
| PartitionIo.Crc32OfZero | srclib/libopenpart/src/utility.c:84-93 | a check value of the CRC |
| PartitionIo.ChecksumCrc32 | srclib/libopenpart/src/utility.c:79-96 | the result is the one-shot CRC-32 of the partition, and there is one on progress; a short output buffer is an error |
| Magic.GetMagicLength | srclib/libpartition_map/src/Magic.cpp:66-72 | the least length L with magic < 256^L |
| Magic.HasMagic | srclib/libpartition_map/src/Magic.cpp:74-104 | on a read at least as long as the magic: found iff its shortest little-endian encoding occurs in the bytes read; on a shorter read: found iff it occurs in the zero-padded buffer, else an overrun; false for a zero magic, a failed read or a buffer size below 1 |
| Magic.SearchBuffer | srclib/libpartition_map/src/Magic.cpp:92-104 | the window loop with its unsigned bound decides that |
| Magic.WindowHolds | srclib/libpartition_map/src/Magic.cpp:93-97 | the or-accumulated value equals the magic iff the window is its encoding |
| Magic.ValueOfEncoding | srclib/libpartition_map/src/Magic.cpp:94-96 | reading back an encoding gives the value |
| Magic.EncodingOfValue | srclib/libpartition_map/src/Magic.cpp:94-96 | encoding the value of some bytes gives them back |
| Magic.LittleEndianAt | srclib/libpartition_map/src/Magic.cpp:94-96 | byte i of the encoding is the value divided by 256^i, modulo 256 |
| Magic.OrIsSum | srclib/libpartition_map/src/Magic.cpp:96 | bitwise or-ing in bits above those in use is addition |
| Magic.OrNextByte | srclib/libpartition_map/src/Magic.cpp:94-96 | or-ing the next byte, shifted into place, appends it to the little-endian number read so far |
| Magic.WindowValue | srclib/libpartition_map/src/Magic.cpp:94-96 | the or-accumulating loop computes the little-endian value of the window |
| Magic.LowBytes | srclib/libpartition_map/src/Magic.cpp:68-70 | the low bytes of a value grow by the next shifted-out byte |
| Magic.HitPersists | srclib/libpartition_map/src/Magic.cpp:92-101 | a hit in a prefix is a hit in any longer read |
| LpMetadata.DynamicTable.Scan | srclib/libpartition_map/src/DynamicPartitionTable.cpp:29-44 | partitions are registered in metadata order behind those there already |
| LpMetadata.DynamicTable.ReScan | srclib/libpartition_map/src/DynamicPartitionTable.cpp:248-252 | afterwards the registered partitions match the metadata one to one |
| LpMetadata.DynamicTable.FreeSpace | srclib/libpartition_map/src/DynamicPartitionTable.cpp:124-132 | free plus registered sizes is the super device's size, modulo 2^64 |
| LpMetadata.DynamicTable.TotalOf | srclib/libpartition_map/src/DynamicPartitionTable.cpp:211-214 | the loop's total is the group's sum modulo 2^64 |
| LpMetadata.DynamicTable.ValidMetadata | srclib/libpartition_map/src/DynamicPartitionTable.cpp:200-246 | true iff there is metadata, its magic is right, every limited group fits, every linear extent's end fits its device and every extent range fits the table, in machine arithmetic |
| LpMetadata.SumExchange | srclib/libpartition_map/src/DynamicPartitionTable.cpp:124-214 | summing by group and summing by registered partition give the same |
| LpMetadata.SumsUnfold | srclib/libpartition_map/src/DynamicPartitionTable.cpp:128-129 | what the sums add up, one at a time |
| LpMetadata.UsedSpaceIsGroupSpace | srclib/libpartition_map/src/DynamicPartitionTable.cpp:124-214 | what freeSpace subtracts is the sum of the group totals, also under wrap-around |
| LpMetadata.UsedSpaceWithinLimits | srclib/libpartition_map/src/DynamicPartitionTable.cpp:208-219 | accepted metadata with all groups limited uses at most the sum of the limits |
| LpMetadata.AcceptedMeans | srclib/libpartition_map/src/DynamicPartitionTable.cpp:200-246 | metadata is sound (right magic, limited groups within their limits, linear extents inside their devices, extent ranges inside the table) iff it is accepted and none of the sums compared wraps around |
| LpMetadata.GroupFitsMeans | srclib/libpartition_map/src/DynamicPartitionTable.cpp:208-219 | a limited group is within its limit iff the check passes and its total fits in 64 bits |
| LpMetadata.GroupCheckWraps | srclib/libpartition_map/src/DynamicPartitionTable.cpp:208-219 | accepted metadata whose group exceeds its limit |
| LpMetadata.ExtentCheckWraps | srclib/libpartition_map/src/DynamicPartitionTable.cpp:222-231 | an extent outside its device that the check lets through |
| LpMetadata.ExtentFitsMeans | srclib/libpartition_map/src/DynamicPartitionTable.cpp:222-231 | an extent ends inside its device iff the check passes and its end fits in 64 bits |
| LpMetadata.RangeFitsMeans | srclib/libpartition_map/src/DynamicPartitionTable.cpp:234-239 | a partition's extents lie in the table iff the check passes and the index sum fits in 32 bits |
| LpMetadata.RangeCheckWraps | srclib/libpartition_map/src/DynamicPartitionTable.cpp:234-239 | an extent range outside the table that the check lets through |
| DevicePath.ScanPath | srclib/libpartition_map/src/PartitionTableData.cpp:63 | scan builds the same path as `path()`: the table, a 'p' iff it ends in a digit, and the index plus one, modulo 2^32, in decimal without leading zeros |
| DevicePath.PathOf | srclib/libpartition_map/include/libpartition_map/partition.hpp:197-201 | the table, a 'p' iff it ends in a digit, and digits that read as the index plus one, modulo 2^32, without leading zeros |
| DevicePath.ParseAppend | srclib/libpartition_map/include/libpartition_map/partition.hpp:199 | how digits read |
| DevicePath.ParseDecimal | srclib/libpartition_map/include/libpartition_map/partition.hpp:197-201 | printing a number in decimal is injective |
| DevicePath.SplitUnique | srclib/libpartition_map/include/libpartition_map/partition.hpp:197-201 | a path splits in one way into a stem not ending in a digit and a number |
| DevicePath.SamePath | srclib/libpartition_map/include/libpartition_map/partition.hpp:197-201 | equal paths have equal index and stem |
| DevicePath.PathsDistinguish | srclib/libpartition_map/include/libpartition_map/partition.hpp:197-201 | over a set of table paths, different partitions have different device paths iff no table is another one, ending in a digit, followed by 'p' |

## Left out

- ScatterGather.ForEachBlockRange: callbacks are functions of their own state and of the bytes handed to them, a successful one with as much output as input; output regions are disjoint from each other and from the input, except that a byte's output may lie on its own input byte.
- ScatterGather.IsValid: the limit on the number of chunks (`CRYPTO_IOVEC_MAX`) is a parameter; its definition is not part of this model.
- `ForEachOutBlockRange` and `GetAndRemoveOutSuffix`: the same code reading the other member of a chunk.
- `ForEachBlockRange_Dynamic`: a dispatch on two block sizes; the walk is proved for every block size.
- CmdLineApp.App.DoToDoList: transformer, checker and setter are functions of the value; an option's callback (which may exit the program) is not called.
- CmdLineApp.App.Parse: help output and the exit after it are one result; the program name is stored nowhere.
- CmdLineApp.App.ParseTwice: plugins that add options between the two passes are not modelled; the declaration is the same in both.
- Building the declaration (adding options, splitting names at commas, conversion of typed values) and the layout of the help text around the wrapped descriptions.
- UniqueFd.UniqueFD.Destroy: the fsync before a close is not modelled, as it changes no ownership.
- UniqueFd.UniqueFD.Adopting: what fcntl, fstat and readlink report is an input.
- UniqueFd.UniqueFD.MoveFrom: the moved-from path is left as it was; the standard leaves it unspecified.
- UniqueFd.Pool.Do: a descriptor closed behind the object's back (`BasicPartition_t::closeFdNow` and `set`) is outside the ownership discipline.
- `BasicUniqueFP`, `ScopeGuard` and the directory helpers: the same discipline on other handles.
- Silencing.Silencer.Silence: flushing of the C streams is not modelled.
- AsyncManager.ScheduleIndependence: tasks return a result; a task that throws into its future is not modelled.
- PartitionIo.Dump: a read of 0 bytes never counts as failed with EPERM, although a stale errno could make it; failures to open files, progress callbacks and names are left out.
- PartitionIo.Write: the final sync and its failure are left out.
- PartitionIo.Wipe: the final sync and its failure are left out.
- PartitionIo.StreamOver: SHA-256 and MD5 stand for any update function that does not depend on how its input is cut; their digests are not modelled.
- Magic.HasMagic: what happens after a read past the end of the buffer is not modelled; opening the file is not either.
- LpMetadata.DynamicTable.Scan: reading the metadata is assumed to succeed, and partition names to contain no slash, so that a partition's name is the last part of its path.
- LpMetadata.DynamicTable.ValidMetadata: metadata must be resolvable, that is, every partition of a limited group registered and every linear extent's device in the list, as the code dereferences both unchecked.
- `DynamicTableData::freeSpace(name)`: it looks up a partition by the group's name, so the group sums of `validMetadata` are used instead.
- DevicePath.PathsDistinguish: empty table paths are excluded, whose last character the code reads all the same.
- The logical partition's path, GPT data and `PartitionTableData`'s collections: lookups and delegation to other libraries.
- Sector reads and writes, metadata getters, hexdump and file system detection of libopenpart: thin wrappers or output.
- Plugins, logging, the progress bar and device ioctls.
