# VM image loader and interpreter core

A Dafny model of the bytecode virtual machine of the `core---vm` library:

- the image loader of `verify.cpp`:
  - `loadVMImage` checks alignment;
  - `countSections` walks the sections;
  - `loadSections` reads the info header, the opcode name map, the number literals, the config data and the pointer literals;
  - `validateFunctions` checks every vtable section and hands every function section to an external validator;
- the interpreter of `vm.cpp`:
  - the handlers `op_stloc` … `op_ldintneg`, over a fiber context (`pc`, `r0`, stack, closure captures, globals);
  - `exec_loop`, which fetches 16-bit code words, decodes the three instruction forms and dispatches through the loaded opcode table.

The image is a `seq<Byte>`. Offsets are byte offsets from the image's data start. Every error the loader records is a `VmError(code, offset)`, matching `setVMImgError`. A loader pass that would read past the end of the image ends with `ReadsPast` (and the load with `ReadsPastImage`), since what lies there is unknown. The loader follows the info-header size test as the code writes it; a corrected variant sits beside it (see Findings). The interpreter counts code addresses in 16-bit words: byte `k` of the image has byte address `2 * imgBase + k`, and the code word holding it has address `imgBase + k / 2`. A null `pc` (0) ends the loop. Every memory access the model cannot see is a `BadAccess` fault rather than undefined behaviour.

Modules:

| file | module | contents |
|---|---|---|
| words.dfy | Words | bytes, words, little-endian reads, signed readings, arithmetic helpers |
| layout.dfy | Layout | assumed structure layouts and section types, the host build's constants (`Host`), `VmError` |
| sections.dfy | Sections | `countSections` and the well-formed section walk |
| header.dfy | Header | the info-header, number-literal and config-data branches |
| opcodemap.dfy | OpcodeMap | the opcode-name-map branch |
| loader.dfy | Loader | `loadSections`: the per-section dispatch and the required-section checks |
| vtable.dfy | VTables | the vtable branch of `validateFunctions` |
| image.dfy | Image | `validateFunctions` and `loadVMImage` |
| decode.dfy | Decode | the code-word forms of `exec_loop`, with encoders and round trips |
| vm.dfy | Vm | the fiber context, the handlers, the dispatch, the bounded loop |

## Model

| member | source | states |
|---|---|---|
| Sections.CountFrom | libs/core---vm/verify.cpp:29-41 | a failing walk reports 1002 at a section whose size is not a multiple of 8, or 1003 at a position past the end; a zero-size section is reported as a walk that never advances |
| Sections.CountFromIsWalk | libs/core---vm/verify.cpp:29-41 | the walk succeeds with a list of offsets exactly when those offsets chain from the start, each advancing by its section's aligned non-zero size, and the chain ends at the end of the image |
| Sections.WalkFromWellFormed | libs/core---vm/verify.cpp:25-37 | every section of a successful walk is aligned, lies inside the image, is at least a header long, and is followed directly by the next; the last section ends at the end of the image |
| Sections.CountFromFailsOnChain | libs/core---vm/verify.cpp:29-41 | a failed walk fails at a cursor the chain of sections reaches: 1002 exactly at a reached header whose size is not a multiple of 8, 1003 exactly at a reached cursor past the end, and the endless loop exactly at a reached header of size 0 |
| Sections.CountSectionsWellFormed | libs/core---vm/verify.cpp:29-41 | the walk from the data start yields a well-formed section list |
| Header.InfoHeaderFixReadsSection | libs/core---vm/verify.cpp:49-56 | with the corrected size test, the info-header branch depends only on the section's own bytes: two images that agree on them give the same result |
| Header.LoadInfoHeader | libs/core---vm/verify.cpp:49-58 | the info-header branch fails with 1008 exactly when the section is under 32 bytes; every error is in 1008 to 1013 at the section; 1013 only for a second header; it reads past the image exactly when the magics match and fewer than 32 bytes follow the section header; success means the magics match, the global counts are ordered, and there are fewer than 10000 globals |
| Header.LoadInfoHeaderFixed | libs/core---vm/verify.cpp:49-58 | with the size test counting the section header, 1008 exactly when the header structure does not fit in the section; success means it fits, the magics match and the counts are ordered and below 10000; it never reads past the image |
| Header.InfoHeaderFixAgrees | libs/core---vm/verify.cpp:50 | the two size tests give different results only for a section of 32 to 39 bytes, which the corrected test rejects with 1008 and the source's test lets through |
| Header.InfoHeaderCheckOrder | libs/core---vm/verify.cpp:50-57 | the info-header checks run in source order: each of 1009 to 1012 is reported only when every earlier check passed, and a header passing them all is recorded, or gives 1013 when one was recorded before |
| Header.FirstBadLiteral | libs/core---vm/verify.cpp:112-123 | the first literal that is a NaN double, an integer wider than 32 bits, or a non-zero non-number; none exactly when every literal is acceptable |
| Header.CheckLiterals | libs/core---vm/verify.cpp:112-123 | the literal loop finds no error exactly when every entry is acceptable, and otherwise gives the first rejected entry's code at that entry's offset |
| Header.LoadNumberLiterals | libs/core---vm/verify.cpp:108-124 | a second table gives 1004; the table holds the section size / 8 - 1 words after the header; it loads exactly when every literal is acceptable, and otherwise fails at the first bad literal with that literal's code |
| OpcodeMap.NameEnd | libs/core---vm/verify.cpp:95-97 | the end of a name is the first NUL from its start |
| OpcodeMap.FindOpFirstMatch | libs/core---vm/verify.cpp:82-87 | the static-table search finds the first entry with an equal name, and fails exactly when no entry has that name |
| OpcodeMap.Slots | libs/core---vm/verify.cpp:66-71 | there are as many opcode slots as NUL bytes in the map |
| OpcodeMap.SlotsFollowNames | libs/core---vm/verify.cpp:76-99 | slot `i` holds the table entry for the `i`-th name, and is empty for an empty name |
| OpcodeMap.LastMissUnresolved | libs/core---vm/verify.cpp:88-91 | the position recorded for 1018 starts a name that the static table does not know |
| OpcodeMap.LastMissIsLast | libs/core---vm/verify.cpp:88-91 | every name after the recorded miss resolves: a later miss overwrites an earlier one |
| OpcodeMap.LastMissNoneIff | libs/core---vm/verify.cpp:88-101 | no miss is recorded exactly when every non-empty name resolves |
| OpcodeMap.ResolveAll | libs/core---vm/verify.cpp:76-101 | the second loop succeeds exactly when every name resolves, and then slot `i` holds what the `i`-th name resolves to; otherwise it fails with 1018 at the start of the last name the table does not know, every later name resolving |
| OpcodeMap.LoadOpcodeMap | libs/core---vm/verify.cpp:60-102 | the checks run as 1015 (a second map), 1017 (no final NUL), 1016 (at most `VM_OPCODE_BASE_MASK` names), 1018 (the last unknown name); the map loads exactly when all pass, with one slot per name holding what the name resolves to |
| Loader.LoadSection | libs/core---vm/verify.cpp:46-136 | a section of 32000 bytes or more gives 1014; any other section whose type is not info header, opcode map or number literals is accepted; a rejected info-header, opcode-map or number-literal section fails with exactly the error of its branch, and every error lies inside the section; each checked table-type branch records its table once and leaves every other table alone; an info header is recorded as the offset just after the section header, and only when its magics and global counts are accepted; a literal table is recorded as the section's size / 8 - 1 words after the section header, all acceptable; a loaded opcode table follows the section's names; a config section is always accepted and replaces any earlier config table; one pointer-literal slot is appended per section |
| Loader.LoadSectionsOpcodes | libs/core---vm/verify.cpp:60-102 | the opcode table of a loaded index is that of an opcode-map section of the image: one slot per name, each what the name resolves to |
| Loader.LoadSectionsTables | libs/core---vm/verify.cpp:49-124 | the info header of a loaded index lies just after the section header of an info-header section of the image, whose magics and global counts are accepted; its literal table is that of a number-literal section of the image, and every literal in it is acceptable |
| Loader.LoadFromConfigLast | libs/core---vm/verify.cpp:126-129 | config-data sections are never checked or rejected as duplicates: the recorded config table is that of the last config-data section |
| Loader.LoadFrom | libs/core---vm/verify.cpp:46-137 | loading the remaining sections appends one pointer-literal slot per section, that of the section itself for types from 0x20 up and null below |
| Loader.LoadFromRecords | libs/core---vm/verify.cpp:49-124 | a successful load met at most one info header, one opcode map and one number-literal table, and recorded each one it met |
| Loader.LoadFromFirstError | libs/core---vm/verify.cpp:46-137 | a loop that does not complete ends with the outcome of the first section it rejects, every section before it having been accepted |
| Loader.LoadFromSplit | libs/core---vm/verify.cpp:46-137 | the loop over the remaining sections is the loop over a prefix of them continued from where the prefix left off |
| Loader.LoadSectionsFirstError | libs/core---vm/verify.cpp:46-137 | a load error from 1004 to 1018 is the error of the first section the loop rejects, all earlier sections accepted |
| Loader.NaNLiteralFailsLoad | libs/core---vm/verify.cpp:108-124 | when every section before the first number-literal table is accepted and that table's first bad literal is a double (a NaN), the load fails with 1005 at that literal's offset |
| Loader.LoadSections | libs/core---vm/verify.cpp:43-145 | on success the index lists the walked sections with one pointer-literal slot each and an opcode table wider than `VM_OPCODE_BASE_MASK`; the errors are 1004 to 1022, and the missing-table errors are at offset 0 |
| Loader.LoadSectionsRequired | libs/core---vm/verify.cpp:139-142 | after a successful section loop, the index is built exactly when the header, opcode map, number literals and config data are all present; a missing header gives 1019, then a missing map 1020, then missing literals 1021, then missing config data 1022; a loaded image has at most one of each of the first three |
| VTables.ShiftRight | libs/core---vm/verify.cpp:158 | a logical right shift by `k` bits is division by `2^k`, rounding down |
| VTables.ShapeCode | libs/core---vm/verify.cpp:151-168 | the header checks of a vtable give 0 exactly when its shape is acceptable, and otherwise a code from 1023 to 1032; 1023 exactly when the hash table starts outside the section |
| VTables.ShapeCheckOrder | libs/core---vm/verify.cpp:160-168 | each of 1024 to 1032 is reported exactly when its check fails and every earlier one passed |
| VTables.EntryCheckOrder | libs/core---vm/verify.cpp:185-197 | a method entry fails with 1037, 1038, 1039 in that order (section index in range, non-null literal, function section); a field entry with 1035 then 1036 (slot inside the instance, naming itself) |
| VTables.ScanHash | libs/core---vm/verify.cpp:170-181 | the first loop fails exactly when some entry's slot lies past the section, and otherwise finds the least and greatest slots |
| VTables.FirstBadEntry | libs/core---vm/verify.cpp:185-197 | the first interface entry between the extreme slots that fails its checks; none exactly when all pass |
| VTables.AllZero | libs/core---vm/verify.cpp:199-201 | the padding check passes exactly when every byte after the last entry is zero |
| VTables.RangeCode | libs/core---vm/verify.cpp:183-201 | after the scan, 1034 exactly when the least slot does not match the table size; otherwise the code of the first rejected entry when there is one; otherwise 1040 exactly when the padding is not zero; 0 exactly when all pass |
| VTables.TableCheckOrder | libs/core---vm/verify.cpp:170-201 | 1033 exactly when some slot's entry overruns the section; otherwise 1034, the entry codes and 1040 in that order, on the least and greatest slot |
| VTables.TableCodeZeroIff | libs/core---vm/verify.cpp:170-201 | the hash-table checks accept exactly the tables whose slots fit, whose least slot matches the size, whose entries pass and whose padding is zero |
| VTables.ScanFindsExtremes | libs/core---vm/verify.cpp:170-181 | the scan of all slots fails exactly when some slot does not fit, and otherwise returns their minimum and maximum |
| VTables.VTableCode | libs/core---vm/verify.cpp:151-202 | a vtable's code is a loader code from 1023 to 1040: the shape code when the shape is wrong, else the hash-table code |
| Image.SectionError | libs/core---vm/verify.cpp:151-211 | a rejected vtable reports its code at its own offset; a rejected function reports the debug rerun's error when that run records one, and the first run's error otherwise |
| Image.FirstBadSection | libs/core---vm/verify.cpp:150-212 | the first section that the validation pass rejects; none exactly when every section passes |
| Image.ValidateFunctionsVerdict | libs/core---vm/verify.cpp:149-214 | the validation pass records nothing exactly when every vtable and function section passes; otherwise it records the error of the first section that does not |
| Image.LoadVMImage | libs/core---vm/verify.cpp:221-237 | a misaligned data pointer gives 1000 and a misaligned length 1001; a loaded image is aligned, walks to a well-formed section list, loads, and has pointer literals inside the image; a read past the image happens at its end, after a successful walk |
| Image.LoadVMImagePasses | libs/core---vm/verify.cpp:221-236 | after the alignment checks, a failed walk, a failed section load and a failed validation each end the load with that pass's own error, and a load passing all three is loaded |
| Image.HeaderReadPastImageAsWritten | libs/core---vm/verify.cpp:49-55 | a 32-byte image holding one info-header section of size 32 walks, passes the source's size test and the magic checks, and then reads past the end of the image; the corrected test rejects it with 1008 |
| Image.LoadedIsValid | libs/core---vm/verify.cpp:221-236 | a loaded image passed the alignment check and every section passed validation |
| Image.ValidIsLoaded | libs/core---vm/verify.cpp:221-236 | an aligned image that walks, loads and validates is loaded with the index its sections give |
| Image.FailedCarriesCode | libs/core---vm/verify.cpp:221-236 | a failed load carries a loader code from 1000 to 1040, or an error recorded by the function validator for a function section of the walk |
| Decode.FormsPartition | libs/core---vm/vm.cpp:164-168 | the basic, API and two-word forms partition the code words by their two top bits |
| Decode.BasicRoundTrip | libs/core---vm/vm.cpp:164-165 | a basic word built from a table index and an argument decodes back to both |
| Decode.BasicDecodeEncode | libs/core---vm/vm.cpp:164-165 | every basic word is the encoding of its own decoding |
| Decode.ApiRoundTrip | libs/core---vm/vm.cpp:166-167 | an API word decodes to the table index it was built from |
| Decode.ApiDecodeEncode | libs/core---vm/vm.cpp:166-167 | every API word is the encoding of its own index |
| Decode.ExtHighScaled | libs/core---vm/vm.cpp:169 | the shifts of the first word compute its sign-extended low 14 bits scaled by `2^(16 - OPCODE_BASE_SIZE)`, modulo 2^32 |
| Decode.ExtendedArgIsSigned | libs/core---vm/vm.cpp:168-172 | the unsigned argument of a two-word instruction is its signed reading modulo 2^32 |
| Decode.ExtendedRoundTrip | libs/core---vm/vm.cpp:168-172 | a two-word encoding of an index and a signed argument in the 30 - `OPCODE_BASE_SIZE` bit range decodes to that index and that argument |
| Decode.ExtendedDecodeEncode | libs/core---vm/vm.cpp:168-172 | every two-word instruction is the encoding of its index and signed argument |
| Vm.PushValue | libs/core---vm/vm.cpp:130-132 | a push succeeds exactly when there is a slot below the stack pointer; it writes that slot and moves the stack pointer down by one, changing nothing else |
| Vm.Call | libs/core---vm/vm.cpp:78-81 | a call pushes the return record for the current `pc` and continues at the target, changing nothing else |
| Vm.NegInt32 | libs/core---vm/vm.cpp:145-147 | `-(int)arg` is the mathematical negation up to 2^31 and wraps above it |
| Vm.Exec | libs/core---vm/vm.cpp:21-147 | no handler resizes the stack, the captures or the globals; only `stcap` and `stglb` change those; only jumps, calls and `ret` move `pc`; the stores, jumps and stack-pointer handlers keep `r0`; a fault is a bad access or, for `callind`, a failed cast of `r0` |
| Vm.Dispatch | libs/core---vm/vm.cpp:165-171 | an index past the opcode table is a bad access and an empty slot a null-handler fault |
| Vm.Run | libs/core---vm/vm.cpp:160-174 | the loop halts only with a null `pc`, and a null `pc` halts at once |
| Vm.StoreLoad | libs/core---vm/vm.cpp:21-48 | each store and its load reach the same slot: one faults exactly when the other does, a load after a store reads the stored value back, and a store after a load writes it back unchanged |
| Vm.StoreWritesOneSlot | libs/core---vm/vm.cpp:21-43 | `stloc`, `stcap` and `stglb` write `r0` to their slot of the stack, the captures or the globals; no other slot or table, nor `pc`, `sp` or `r0`, changes |
| Vm.PushThenPop | libs/core---vm/vm.cpp:113-132 | `pop` after `push` restores `sp` and `r0` |
| Vm.PopThenPush | libs/core---vm/vm.cpp:113-132 | `push` after `pop` puts the popped value back where it was |
| Vm.PushManyIsRepeatedPush | libs/core---vm/vm.cpp:123-127 | `pushmany n` is `n` single pushes of `undefined`, with the same faults and the same stack |
| Vm.PushUndefinedIsRepeatedPush | libs/core---vm/vm.cpp:123-127 | setting `n` slots below the stack pointer to `undefined` at once equals `n` single pushes, faults included |
| Vm.PushManyThenPopMany | libs/core---vm/vm.cpp:118-127 | `popmany n` after `pushmany n` restores the stack pointer; the pushed slots hold `undefined` and the others are untouched |
| Vm.JumpLands | libs/core---vm/vm.cpp:61-63 | a jump by the 32-bit pattern of a signed offset moves `pc` by exactly that offset |
| Vm.JumpsComplement | libs/core---vm/vm.cpp:66-75 | of `jmpz` and `jmpnz` with the same argument, exactly one jumps, as `r0` is falsy or truthy |
| Vm.RetArgFields | libs/core---vm/vm.cpp:104-105 | `ret` decodes the temporaries and argument counts that a packed argument carries, for counts below 256 |
| Vm.ReturnRecordTarget | libs/core---vm/vm.cpp:103-109 | the return record pushed by a call leads `ret` back to the call's `pc` while the distance from the image base fits in 56 bits |
| Vm.RetResumes | libs/core---vm/vm.cpp:103-110 | `ret` over a return record drops the temporaries, the record and the arguments, and resumes at the recorded `pc` |
| Vm.CallProcThenRet | libs/core---vm/vm.cpp:78-110 | a callee that returns from `callproc` with its temporaries and arguments resumes the caller after the call, with the caller's stack pointer plus the arguments |
| Vm.CallIndThenRet | libs/core---vm/vm.cpp:84-110 | the same round trip through `callind` |
| Vm.CallIndChecks | libs/core---vm/vm.cpp:84-100 | `callind` fails the cast exactly when `r0` is not a pointer to a function whose `reserved` field equals the argument; otherwise it faults only on a full stack, and it enters the function's code |
| Vm.LoadedLiteralAligned | libs/core---vm/verify.cpp:131-134 | a pointer literal of a loaded image is an 8-aligned offset inside the image |
| Vm.CallProcEntersSection | libs/core---vm/vm.cpp:78-81 | `callproc` on a section's pointer literal continues at the first code word after that section's header |
| Vm.LoadedEnvValid | libs/core---vm/verify.cpp:221-236 | a loaded image is a valid interpreter environment whose opcode table is wider than `VM_OPCODE_BASE_MASK` |
| Vm.LoadsSetOnlyR0 | libs/core---vm/vm.cpp:26-147 | the load handlers (`ldloc`, `ldcap`, `ldglb`, `ldlit`, `ldnumber`, `ldspecial`, `ldint`, `ldintneg`) change only `r0`; `ldspecial` never faults and loads its argument |
| Vm.LdLitLoadsSection | libs/core---vm/vm.cpp:51-53 | with an index built by the load pass, `ldlit k` loads the address of section `k` when its type is 0x20 or above, and 0 otherwise |
| Vm.LdNumberAccepted | libs/core---vm/vm.cpp:56-58 | `ldnumber k` below the count of an accepted literal table loads entry `k`, and that word is an accepted literal |
| Vm.LdNumberLoadsLiteral | libs/core---vm/vm.cpp:56-58 | with an index built by the load pass, `ldnumber k` below the literal count loads entry `k` of a number-literal section's table, a literal the load pass accepted |
| Vm.LdIntNegNegates | libs/core---vm/vm.cpp:140-147 | `ldintneg n` loads the number `-n` up to 2^31, and agrees with `ldint` on zero |
| Vm.StepBasic | libs/core---vm/vm.cpp:163-165 | an encoded basic word runs its slot with its argument, one word on |
| Vm.StepApi | libs/core---vm/vm.cpp:163-167 | an API word runs its slot without an argument, one word on |
| Vm.StepExtended | libs/core---vm/vm.cpp:163-172 | a two-word encoding runs its slot with the 32-bit pattern of its signed argument, two words on |
| Vm.BasicIndexInTable | libs/core---vm/vm.cpp:161-171 | when `OPCODE_BASE_MASK` is at most `VM_OPCODE_BASE_MASK`, a loaded opcode table covers every index a basic or two-word instruction can name |
| Vm.RunMoreFuel | libs/core---vm/vm.cpp:160-174 | more iterations change nothing once the loop has halted or faulted |
| Vm.RunCompose | libs/core---vm/vm.cpp:160-174 | a run of `f + g` iterations is a run of `f` continued for `g` |

## Left out

- `pxt.h` and `target.cpp` are not part of this model. Several things defined there are instead parameters of `Host`, fixed when an image is loaded:
  - the magic numbers, `VM_OPCODE_BASE_MASK`, `OPCODE_BASE_SIZE`, `VM_NUM_CPP_METHODS` and the `ValType` codes;
  - the static opcode table;
  - the value-tag helpers (`isDouble`, `isInt`, `isPointer`, `toBoolQuick`, `TAG_NUMBER`, `TAG_UNDEFINED`);
  - reading a vtable's `objectType` and `reserved` through a pointer.
- The structure layouts are assumed, not taken from a header:
  - the section header is 8 bytes: the type is the byte at offset 0 and the size the 32-bit little-endian word at offset 4;
  - `VMImageHeader` is 32 bytes;
  - the vtable field offsets;
  - `IfaceEntry` is 8 bytes;
  - the section-type codes.
- `validateFunction` is not part of this model. It is a parameter: a function from a section offset and the debug flag to the error it records.
- Floating point: `isnan(doubleVal(v))` is the abstract `Host.isNaN`.
- What a read past the end of the image would find. Such a load ends with `ReadsPastImage` instead.
- The contents of the config data. Only its position and entry count are recorded; nothing in this model reads its 32-bit entries.
- Allocation, `printf` and `memset`. The partial state of an image that carries an error is not modelled: only the error is.
- The `IfaceMemberNames` branch (a TODO in the source) and `injectVTables` (which does nothing) have no model.
- `call_getConfig` is a generated API function. It is one of the native operations, which are a parameter (`Natives`) of the interpreter.
- `exec_loop` runs for at most a given number of iterations (its fuel). A run that exhausts its fuel is reported as such. Whether the real loop would ever stop is not decided.
- Memory that the model cannot see gives a `BadAccess` fault, where the source has undefined behaviour:
  - a code fetch outside the image;
  - a stack, capture or global slot out of range;
  - a pointer or number literal index past its table;
  - an opcode-table index past the table's end.
- The image base (`imgbase`) is taken to be the image's data start. Odd pointers are rounded down when converted to code addresses.
- `globals` is a field of the fiber context rather than process-wide state.
- Vm.Dispatch: a core handler reached through the API form (no argument) is reported as a `MissingArgument` fault. The source would call it with whatever the register holds.
- VTables.ShiftRight: a shift by 32 or more gives 0 (the mathematical value). In C that shift is undefined.
- `Host.OpcodeBaseMask` is `2^OPCODE_BASE_SIZE - 1`. Its relation to `VM_OPCODE_BASE_MASK` is not fixed by the code shown, so `Vm.BasicIndexInTable` assumes the first is at most the second.
- `Decode` is stated for every split of the 16-bit word (`p * q = 2^16`) and then instantiated with the host's `OPCODE_BASE_SIZE`.
- Vm.ReturnRecordTarget: stated only for calls within 2^55 code words of the image base. The record keeps 56 bits of the distance.

## Findings

| source | as written | input that shows it | evidently intended | confidence | as-written member | corrected member |
|---|---|---|---|---|---|---|
| libs/core---vm/verify.cpp:50 | `sect->size >= sizeof(VMImageHeader)`, where the size includes the 8-byte section header | a 32-byte image holding one info-header section of size 32 | the whole header structure lies inside the section: `size >= 8 + sizeof(VMImageHeader)` | high by proof; not executed | Header.LoadInfoHeader, Image.HeaderReadPastImageAsWritten | Header.LoadInfoHeaderFixed, Header.InfoHeaderFixAgrees |

The loader keeps the size test as written, so it can end with `ReadsPastImage`. `Header.LoadInfoHeaderFixed` never reads past the image. `Header.InfoHeaderFixAgrees` proves that the two tests part only on sections of 32 to 39 bytes.
