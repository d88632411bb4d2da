# Memory editor, wasteland story engine and hurricane classifier in Dafny

This project models three parts of the repository and proves properties
about them.

**The educational memory editor** (`thing/MemoryEditor.py`). The
`MemoryEditor` object keeps:

- the attached process handle, pid and process name;
- the list of candidate addresses;
- the active value type (`int32`, `int64`, `float`, `double` or `byte`).

A scan encodes a value into its little-endian pattern. It then walks the
target's address space region by region. It reads up to 10 MiB of every
committed, readable region and records every offset where the pattern
occurs, except a match in the chunk's final window. As written, the walk
raises on the region it finds at address 0 (see Findings), so the model
keeps two walks: the one the code performs and the one it evidently
intends. A filter re-reads the candidates and keeps those that still hold a
given value. Modify writes a value's encoding, and read-value decodes the
bytes at an address. The interactive menu turns what the user types into an
address. An all-digit entry is an index into the candidates when there are
any; anything else is read as hexadecimal.

The target process is abstract (`TargetProcess.Target`). It is a list of
memory regions (base, size, state, protection) and a partial map from
address to byte. `VirtualQueryEx` reports the region holding the queried
address. An address between listed regions lies in a free gap, reported as
a free region from that address up to the next listed region's base. The target also keeps the set of addresses whose page protection
lets a write through. `ReadProcessMemory` reaches the longest run of mapped
bytes from the start address, and a read succeeds only when that run covers
every requested byte. `WriteProcessMemory` reaches the longest run of mapped,
writable bytes. It stores the bytes it reaches and reports success only when
it reached them all, so a read-only page can be read but not written.

**The branching story** (`FinalProject/main.py`). The scene table has 31
scenes: 27 encounters with two choices each and 4 endings. The engine
starts at `"start"` and counts each scene it shows. It stops at an ending.
Otherwise it reads a line, and the line must be a choice number from 1 to
the number of choices. It then moves to the chosen scene if that scene
exists. The run is a method proved equal to a recursive specification
`Story.Play`. `Play` returns the scenes shown, how the run stopped and how
many lines it read.

**The hurricane classifier** (`Assignments/HurricaneClassifier.py`). It
maps a wind speed in mph to a Saffir-Simpson category.

Layout:

- `wrappers.dfy`: `Option` and `Result`.
- `numeric.dfy`: Python's `int(s, base)`, `str.isdigit`, decimal rendering
  and the `0x{addr:016X}` address format.
- `value_codec.dfy`: the five value kinds, `struct.pack` / `struct.unpack`
  for them, and `value & 0xFF`.
- `target_process.dfy`: regions, the region query, byte reads and writes,
  and the `Target` object.
- `scanner.dfy`: the search, region scan and address-space walk as
  functions, with soundness, ordering and completeness.
- `editor.dfy`: the `MemoryEditor` class, the filter specification and the
  address resolution.
- `story.dfy`: the scene table and the engine.
- `hurricane.dfy`: the classifier.

Two facts about the code that the model keeps:

- A scan, read or write on a session without a handle does not raise an
  error. `ScanMemory` returns an empty list, `ReadMemory` gives no bytes
  and `WriteMemory` reports failure.
- Only a scan replaces the candidate list; a filter narrows it.

## Model

| member | source | states |
|---|---|---|
| Numeric.ParseInt | thing/MemoryEditor.py:550 | Python's `int(text, base)`; its properties are `AddressRoundTrip`, `DecimalRoundTrip` and `DigitStringParses` |
| Numeric.FormatAddress | thing/MemoryEditor.py:554 | the `0x{addr:016X}` rendering; its property is `AddressRoundTrip` |
| Numeric.AddressRoundTrip | thing/MemoryEditor.py:550-554 | an address printed as `0x` plus 16 upper-case hex digits reads back through `int(text, 16)` as the same address; the printed form is never all digits, so it is never taken for an index |
| Numeric.DecimalRoundTrip | thing/MemoryEditor.py:542-543 | a number's decimal rendering passes `isdigit` and `int` reads it back as the number |
| Numeric.DigitStringParses | thing/MemoryEditor.py:542-543 | every non-empty string of ASCII digits is accepted by `int` and denotes its decimal digit value, so an ASCII entry in the index branch never raises |
| ValueCodec.ParseKind | thing/MemoryEditor.py:114-130 | the `if`/`elif` chain on the type name, shared by the scan and by the branches at lines 190-204 and 221-232; its property is `ParseKindNames` |
| ValueCodec.ParseKindNames | thing/MemoryEditor.py:114-130 | a type name is accepted exactly when it is one of the five names, and each kind's own name selects that kind |
| ValueCodec.Encode | thing/MemoryEditor.py:113-130 | packing succeeds exactly when the value lies in the format's range (`<i`: 32-bit signed, `<q`: 64-bit signed, byte: always), and then yields exactly the kind's width in bytes |
| ValueCodec.Decode | thing/MemoryEditor.py:241-259 | `struct.unpack` for the five kinds; its properties are `EncodeDecode`, `LittleEndianUnsigned` and `MatchesPatternIffDecodes` |
| ValueCodec.EncodeDecode | thing/MemoryEditor.py:236-260 | for every accepted value, unpacking the packed bytes gives the value back (for the byte kind, `v & 0xFF`), and the bytes are the value modulo 2^(8·width), least significant first |
| ValueCodec.ByteRoundTrip | thing/MemoryEditor.py:126-128 | the byte kind stores `v & 0xFF` for every integer `v`, negative ones included, and reads it back unsigned |
| ValueCodec.LittleEndianUnsigned | thing/MemoryEditor.py:241-259 | every byte string is the little-endian encoding of its own unsigned value, so a read can always be decoded |
| ValueCodec.MatchesPatternIffDecodes | thing/MemoryEditor.py:207-210 | a read of the kind's width equals the search pattern exactly when it decodes to the searched value; float and double values are compared as IEEE 754 bit patterns |
| TargetProcess.IsScannable | thing/MemoryEditor.py:153-156 | a committed region with one of the five readable protections; its properties are `RegionHitsSound` and `WalkSound` (only such regions contribute) and `RegionHitsComplete` (all of them do) |
| TargetProcess.Query | thing/MemoryEditor.py:142-150 | the reported region holds the address; it is a listed region or a free gap that starts at the address; the query fails exactly when every region ends at or below it |
| TargetProcess.QueryReports | thing/MemoryEditor.py:142-147 | a reported region that is not listed is the free gap starting at the queried address |
| TargetProcess.QueryFinds | thing/MemoryEditor.py:142-147 | the report is the first listed region that ends above the address, or the free gap up to that region's base when the address lies below it |
| TargetProcess.WritableView | thing/MemoryEditor.py:89-102 | the bytes `WriteProcessMemory` can reach: exactly the mapped addresses in the writable set |
| TargetProcess.WriteBytes | thing/MemoryEditor.py:89-102 | `WriteProcessMemory`: the run of mapped, writable bytes from the address is written and nothing else changes; its properties are `WriteThenRead`, `WriteFrame` and `WriteRefused` |
| TargetProcess.MappedPrefix | thing/MemoryEditor.py:77-83 | the count of bytes read or written is never more than requested, every byte counted is mapped, and a short count stops at an unmapped byte |
| TargetProcess.ReadBytes | thing/MemoryEditor.py:72-87 | a read yields data exactly when all `size` bytes are mapped, and the data is `size` bytes equal to memory at the consecutive addresses |
| TargetProcess.ReadWindow | thing/MemoryEditor.py:164-168 | a slice of a successful read equals a read of that slice, so a match in a chunk is a match in memory |
| TargetProcess.WriteThenRead | thing/MemoryEditor.py:89-102 | after a write over memory that is mapped and writable throughout, reading the same range yields exactly the written bytes |
| TargetProcess.WriteFrame | thing/MemoryEditor.py:89-102 | a write maps no new addresses and changes no byte outside the written range |
| TargetProcess.WriteRefused | thing/MemoryEditor.py:89-102 | a write starting at a byte that is not writable changes nothing and does not succeed |
| TargetProcess.ReadOnlyByteRefusesWrite | thing/MemoryEditor.py:72-102 | a mapped byte outside the writable set (a read-only page) reads back its value, while writing to it changes nothing and does not succeed |
| Scanner.ChunkSize | thing/MemoryEditor.py:159 | `min(RegionSize, 10 MiB)`, the length of the read; its property is `RegionHitsSound` (every address lies in the first `min(size, 10 MiB)` bytes) |
| Scanner.Search | thing/MemoryEditor.py:164-169 | the sliding search of one chunk with the loop bound as written; its properties are `SearchMembers` and `FinalWindowMissed` |
| Scanner.RegionHits | thing/MemoryEditor.py:153-169 | one region's contribution; its properties are `RegionHitsSound`, `RegionHitsComplete` and `RegionHitsOrdered` |
| Scanner.Walk | thing/MemoryEditor.py:140-175 | the intended walk, with a NULL base read as address 0; its properties are `WalkSound`, `WalkComplete`, `WalkIsSweep` and `WalkAsWrittenPrefix` |
| Scanner.WalkAsWritten | thing/MemoryEditor.py:140-175 | the walk as the code performs it: a reported region with a NULL base raises TypeError before adding any address; its properties are `WalkAsWrittenPrefix` and `ScanFromZeroRaises` |
| Scanner.RegionAtCeilingUnreached | thing/MemoryEditor.py:140 | a region that starts at the ceiling is not scanned even when a free gap leads up to it, because the gap moves the address to the ceiling |
| Scanner.WalkAsWrittenPrefix | thing/MemoryEditor.py:140-175 | the walk as written records a prefix of the intended walk, and all of it unless a NULL base raised |
| Scanner.ScanFromZeroRaises | thing/MemoryEditor.py:30 | the first query is at address 0 and whatever it reports has base 0, read as None, so the walk as written records nothing and raises whenever that query succeeds; the query succeeds exactly when some region ends above 0 |
| Scanner.HitsMembers | thing/MemoryEditor.py:164-169 | the search loop up to offset `n` records `base + o` exactly for the match offsets `o < n` |
| Scanner.HitsOrdered | thing/MemoryEditor.py:164-169 | the recorded addresses are strictly increasing and lie in `[base, base + n)` |
| Scanner.SearchMembers | thing/MemoryEditor.py:165-168 | an address is found in a chunk exactly when it is `base + o` for a match with `o + size < len(data)`; overlapping matches are all found |
| Scanner.FinalWindowMissed | thing/MemoryEditor.py:165 | the window that ends at the end of the chunk is never reported, whatever the bytes |
| Scanner.ShortDataNoHits | thing/MemoryEditor.py:165 | a chunk no longer than the pattern yields no address |
| Scanner.OverlappingExample | thing/MemoryEditor.py:164-169 | searching `7 7` in `7 7 7 7 7` at base 100 finds 100, 101 and 102: overlapping matches, not the last window |
| Scanner.RegionHitsSound | thing/MemoryEditor.py:153-169 | every address a region contributes comes from a committed region with a readable protection, lies within the first `min(size, 10 MiB)` bytes, and the pattern is in memory there |
| Scanner.RegionHitsComplete | thing/MemoryEditor.py:153-169 | in a scannable region whose capped read succeeds, every match before the final window is reported |
| Scanner.RegionHitsOrdered | thing/MemoryEditor.py:153-169 | a region's addresses are strictly increasing and inside the region |
| Scanner.WalkSound | thing/MemoryEditor.py:140-175 | every address the intended walk reports lies in a scannable region's capped chunk and memory holds the pattern there |
| Scanner.WalkComplete | thing/MemoryEditor.py:140-175 | in a well-formed region list, the intended walk reports every match before the final window of the capped read of a scannable region that starts below the ceiling; a region at or above the ceiling is never reached, even across a free gap |
| Scanner.WalkIsSweep | thing/MemoryEditor.py:140-175 | over non-overlapping ascending regions, the intended walk crosses the free gaps and equals taking each region's hits in list order, up to the first region that starts at or above the ceiling |
| Scanner.SweepOrdered | thing/MemoryEditor.py:140-175 | over non-overlapping ascending regions the scan result is strictly ascending (discovery order is address order) |
| Scanner.SearchAll | thing/MemoryEditor.py:165 | the search with the inclusive bound `len(data) - size + 1`, the evidently intended loop; its properties are `SearchAllMembers` and `FinalWindowExample` |
| Scanner.SearchAllMembers | thing/MemoryEditor.py:165 | with the bound `len(data) - size + 1` every match, the final window included, would be found |
| Scanner.FinalWindowExample | thing/MemoryEditor.py:165 | a 4-byte chunk equal to a 4-byte pattern yields nothing as written, and one address with the inclusive bound |
| Editor.KeepMatching | thing/MemoryEditor.py:206-212 | the filter's result over a candidate list; its properties are `FilterNarrows`, `FilterMembers` and `FilterIdempotent` |
| Editor.FilterNarrows | thing/MemoryEditor.py:206-212 | the filtered list is an order-preserving subsequence of the candidates and never longer |
| Editor.FilterMembers | thing/MemoryEditor.py:206-212 | an address survives exactly when it was a candidate and a fresh read of the pattern's width equals the pattern |
| Editor.FilterIdempotent | thing/MemoryEditor.py:180-214 | filtering again with the same value over unchanged memory changes nothing |
| Editor.FilterAfterScan | thing/MemoryEditor.py:104-214 | filtering right after the intended scan with the scanned value and unchanged memory keeps every scanned address |
| Editor.ModifyReadRoundTrip | thing/MemoryEditor.py:561-563 | writing an accepted value where all its bytes are mapped and writable, then reading the width back, gives the written encoding, which decodes to the value (`v & 0xFF` for bytes) |
| Editor.MemoryEditor.constructor | thing/MemoryEditor.py:42-48 | a new editor has no handle, pid or name, no candidates and value type `int32` |
| Editor.MemoryEditor.OpenProcess | thing/MemoryEditor.py:50-64 | records the pid and the reported name or "Unknown", takes the returned handle, and raises exactly when that handle is null; candidates and value type are unchanged |
| Editor.MemoryEditor.CloseProcess | thing/MemoryEditor.py:66-70 | afterwards there is no handle, whatever the state before, so closing twice is the same as once; nothing else changes |
| Editor.MemoryEditor.ReadMemory | thing/MemoryEditor.py:72-87 | without a handle nothing is read; otherwise the result is the target's read, which succeeds only when all bytes are read |
| Editor.MemoryEditor.WriteMemory | thing/MemoryEditor.py:89-102 | without a handle the write fails; otherwise memory takes the written bytes it reaches, and success means every byte was mapped and writable |
| Editor.MemoryEditor.ScanRegion | thing/MemoryEditor.py:152-169 | appends exactly the region's hits to the candidates, in address order, and changes nothing else; under a supported value type it keeps the candidates valid |
| Editor.MemoryEditor.WalkAddressSpace | thing/MemoryEditor.py:133-175 | the loop that queries, scans and advances to `base + size` appends exactly the as-written walk's addresses from address 0, and reports the TypeError of a region with a NULL base; under a supported value type it keeps the candidates valid |
| Editor.MemoryEditor.ScanMemory | thing/MemoryEditor.py:104-178 | clears the candidates and stores the type name before validating it; an unknown name raises with no candidates, an out-of-range value raises with no candidates; otherwise the candidates are the as-written walk's addresses for the encoded value, returned unless a NULL base raised; as a consequence the candidates stay empty, and the scan raises whenever the query at address 0 succeeds |
| Editor.MemoryEditor.FilterAddresses | thing/MemoryEditor.py:180-214 | with no candidates returns an empty list and changes nothing; with an unknown type or an unpackable value raises and keeps the candidates; otherwise the candidates become those whose current bytes equal the encoding; the stored value type never changes; while there are candidates, a filter with no type given is never rejected for its type name |
| Editor.MemoryEditor.ModifyValue | thing/MemoryEditor.py:216-234 | uses the given or stored type; an unknown type or an out-of-range value raises and leaves memory alone; otherwise writes the encoding and reports whether every byte was mapped and writable |
| Editor.MemoryEditor.ReadValue | thing/MemoryEditor.py:236-260 | an unknown type raises; otherwise the result is the decoding of a full-width read, or nothing when the read fails; while there are candidates, which are only ever recorded under a supported type, a read with no type given never raises |
| Editor.MemoryEditor.ModifyAndShow | thing/MemoryEditor.py:559-567 | with an unsupported stored type, or a value `struct.pack` rejects (any `int` the menu reads), it raises, memory is unchanged and nothing is shown; otherwise memory takes the reachable part of the value's encoding, modifying succeeds exactly when every byte is mapped and writable, and then the value read back and shown is the value written (`v & 0xFF` for bytes), and when it fails nothing is shown |
| Editor.ResolveAddress | thing/MemoryEditor.py:541-550 | the menu's index-or-hex reading of an address; its properties are the four `Resolve` lemmas below |
| Editor.ResolveShownIndex | thing/MemoryEditor.py:541-550 | typing the index printed beside a candidate selects that candidate |
| Editor.ResolveShownAddress | thing/MemoryEditor.py:541-550 | typing an address as the editor prints it selects that address, with or without candidates |
| Editor.ResolveIndexBounds | thing/MemoryEditor.py:542-548 | with candidates, an all-digit entry is accepted exactly when its value is below the number of candidates, and then yields one of them |
| Editor.ResolveDigitsWithoutCandidates | thing/MemoryEditor.py:549-550 | with no candidates an all-digit entry is read as hexadecimal (`12` is address 0x12) |
| Story.Scenes | FinalProject/main.py:75-432 | the `SCENES` table: 31 scenes with their choices' targets in declaration order; its properties are `TargetsExist`, `EndingsHaveNoChoices`, `EndingCount`, `EncounterCount` and `StoryNeverStrands` |
| Story.TargetsExist | FinalProject/main.py:73-432 | every choice of every scene leads to a scene of the table, and `"start"` is a scene |
| Story.EndingsHaveNoChoices | FinalProject/main.py:75-432 | a scene is an ending exactly when it offers no choices |
| Story.EndingCount | FinalProject/main.py:397-431 | the story has at least four ending scenes |
| Story.EncounterCount | FinalProject/main.py:77-395 | the story has at least twenty encounter (non-ending) scenes |
| Story.PickIndex | FinalProject/main.py:465-473 | an accepted pick always selects one of the scene's choices |
| Story.PickIndexAccepts | FinalProject/main.py:468-473 | a pick is accepted exactly when `int` reads it as an `n` with `1 <= n <= len(options)`, and it then selects choice `n - 1` |
| Story.PickShownNumber | FinalProject/main.py:461-469 | typing the number printed beside the i-th choice selects the i-th choice in declaration order |
| Story.Play | FinalProject/main.py:435-492 | the engine's run as a recursive specification; its properties are `PlayCounts`, `PlayFollowsPicks` and `StoryNeverStrands`, and `Run` equals it |
| Story.PlayCounts | FinalProject/main.py:435-492 | the encounter count is the number of lines read, plus one when the run ends or input runs out; an ending consumes no pick; no run reads more lines than given |
| Story.PlayFollowsPicks | FinalProject/main.py:435-492 | a run starts at its first scene, shows only scenes of the table, moves from each to the choice its pick selects, and an ending run shows the ending's scene last |
| Story.ClosedRunsNeverStrand | FinalProject/main.py:439-485 | when every choice leads to a known scene, a run from a known scene never stops on a missing or uncharted scene |
| Story.StoryNeverStrands | FinalProject/main.py:435-492 | a run of this story stops only at an ending, on a rejected pick, or when input runs out |
| Story.Run | FinalProject/main.py:435-492 | the loop's outcome, encounter count and lines read are those of the specification `Play` from `"start"` |
| Hurricane.Classify | Assignments/HurricaneClassifier.py:1-13 | `classify_hurricane` as written, on real speeds; its properties are `IntegerRank`, `Category5Speeds` and `NotMonotoneOnReals` |
| Hurricane.Label | Assignments/HurricaneClassifier.py:2-13 | the six strings the classifier returns; its property is `LabelsDistinct` |
| Hurricane.LabelsDistinct | Assignments/HurricaneClassifier.py:2-13 | the six category strings are pairwise different |
| Hurricane.IntegerRank | Assignments/HurricaneClassifier.py:1-13 | on whole speeds the category's rank is how many of 74, 96, 111, 130, 157 the speed reaches |
| Hurricane.MonotoneOnIntegers | Assignments/HurricaneClassifier.py:1-13 | on whole speeds a stronger wind never gets a milder category |
| Hurricane.Category5Speeds | Assignments/HurricaneClassifier.py:12-13 | Category 5 is returned exactly above 156 and in the gaps (95, 96), (110, 111), (129, 130) |
| Hurricane.NotMonotoneOnReals | Assignments/HurricaneClassifier.py:4-7 | 95.5 mph is classified Category 5 while 96 mph is Category 2 |
| Hurricane.ClassifyContiguous | Assignments/HurricaneClassifier.py:4-13 | the classifier with each band running up to the next threshold, the evidently intended one; its properties are `ContiguousAgreesOnIntegers` and `ContiguousMonotone` |
| Hurricane.ContiguousAgreesOnIntegers | Assignments/HurricaneClassifier.py:1-13 | the gap-free classifier agrees with the one as written on every whole speed |
| Hurricane.ContiguousMonotone | Assignments/HurricaneClassifier.py:1-13 | the gap-free classifier is monotone over all real speeds |

## Left out

- The Windows API layer is abstracted into `TargetProcess.Target`: ctypes, `OpenProcess`, `CloseHandle`, `VirtualQueryEx`, `ReadProcessMemory`, `WriteProcessMemory`, `PROCESS_ALL_ACCESS` and `MEMORY_BASIC_INFORMATION`. `OpenProcess` receives the handle the system returned, and psutil's process name, as parameters.
- Free gaps between regions are not listed as regions; the query derives them. The model has no pages, so a gap is reported from the queried address itself rather than from the page holding it. The walk only queries at region ends, which are page-aligned on the real system.
- Past the last listed region the query fails. The real system reports one more free region up to the top of user space; the walk then stops at the ceiling with the same result.
- WalkComplete: it is a property of the intended walk `Scanner.Walk`. The walk as written records nothing (`Scanner.ScanFromZeroRaises`), so the program itself never reports these matches.
- Editor.MemoryEditor.ScanMemory: as written, the region reported at address 0 has a NULL `BaseAddress`, which ctypes reads as None. `None + RegionSize` at line 175 raises TypeError, and the menu prints it. The model returns `NullBaseAddress` with the candidates recorded so far, which are none.
- The target's own concurrent writes to its memory are not modelled. The memory changes only through the editor's writes.
- The writable set is a parameter of the target: the addresses whose page protection lets `WriteProcessMemory` through (it refuses PAGE_READONLY and PAGE_NOACCESS pages). It is not derived from the region list's protections, and copy-on-write is not modelled.
- Addresses are unbounded naturals. Overflow of 64-bit pointer arithmetic is not modelled.
- ValueCodec.Encode: a float or double value is given as its IEEE 754 bit pattern (`[0, 2^32)` or `[0, 2^64)`) and encoded as that unsigned integer. Rounding a Python float to single precision, NaN payloads and the `float(input())` conversions are not modelled.
- Editor.MemoryEditor.ReadValue: for float and double the decoded value is the IEEE 754 bit pattern, not the Python float `struct.unpack` returns.
- `progress_callback`, the `total_scanned` counter and all `print` output are not modelled, because they do not affect the candidates or memory.
- `freeze_value`, `list_processes`, `search_processes`, `demo_game`, the menu loop and `main` are not modelled. The exceptions are the menu's address resolution and its modify-then-read step.
- `str.isdigit` accepts only ASCII digits here. In the program, digits that are not decimal digits, such as "²", also pass `isdigit` at thing/MemoryEditor.py:542, but `int` then raises ValueError at line 543 and the menu prints the error (line 566); the model does not have that path.
- Numeric.ParseInt: reads ASCII digits only. Python's `int` also reads every Unicode decimal digit (category Nd) as its value, in any base: `int("٣") == 3`. So in the program "٣" typed at the menu selects candidate 3, or is address 3 when there are no candidates, and "١" picks the first choice of a scene (FinalProject/main.py:469). In the model, `Editor.ResolveAddress` gives `NotHex` and `Story.PickIndex` rejects the pick, so `Story.Play` stops with `Hesitated`, on such input. `int()`'s underscores and surrounding whitespace are not modelled either; the inputs are already stripped.
- Story.Run: the engine receives the scene table as a parameter. The story's table is `Story.Scenes`, for which `Story.StoryNeverStrands` holds.
- Scene narration and choice captions are display text and are not modelled. A scene keeps its choices' targets in declaration order.
- `ai_bridge` and its HTTP call are not modelled. With `USE_AI_FLAVOR` false it returns "" and the run prints nothing between scenes.
- When input runs out, Python raises an uncaught `EOFError`. The model records this as the outcome `InputClosed`.
- Under `python -O` the `assert` in the pick validation is stripped, and pick `0` would then select the last choice. The model follows a normal run.
- Hurricane: a NaN speed compares false everywhere and is classified Category 5. Speeds are modelled as reals, so NaN and infinities are out of scope.
- `thing/.py`, `TaskManager.py` and the practice scripts are not part of this model.

## Findings

| source | as written | input that shows it | evidently intended | confidence | as-written member | corrected member |
|---|---|---|---|---|---|---|
| thing/MemoryEditor.py:175 | `address = mbi.BaseAddress + mbi.RegionSize`, where `BaseAddress` is declared a `c_void_p` at line 30 and so reads a NULL base as None | the first query, at address 0, reports the free region at base 0; the addition raises TypeError and the scan records nothing | a NULL base read as address 0, so the walk moves on to the region's end | high, not executed | Scanner.ScanFromZeroRaises | Scanner.WalkComplete |
| thing/MemoryEditor.py:165 | `while offset < len(data) - size` | a 4-byte chunk `01 00 00 00` searched for the int32 value 1 yields no address | the bound `offset <= len(data) - size`, so the final window is examined | medium, not executed | Scanner.FinalWindowExample | Scanner.SearchAllMembers |
| Assignments/HurricaneClassifier.py:4-13 | closed integer bands `74 <= w <= 95`, `96 <= w <= 110`, `111 <= w <= 129`, `130 <= w <= 156`, else Category 5 | wind speed 95.5 gives "Category 5 Hurricane" (also 110.5 and 129.5) | each band runs up to the next threshold, so 95.5 is Category 1 | high, not executed | Hurricane.NotMonotoneOnReals | Hurricane.ContiguousMonotone |

The editor's scan runs the walk as written (`Editor.MemoryEditor.ScanMemory`
raises `NullBaseAddress`). `Scanner.WalkAsWrittenPrefix` ties it to the
intended walk: the two agree whenever no NULL base is reported. The
properties of the intended walk (`WalkSound`, `WalkComplete`, `WalkIsSweep`,
`SweepOrdered`, `FilterAfterScan`) describe what the scan records once the
null base is read as 0. The inner loop keeps the as-written bound in both
walks, because that miss is part of what the scan does; `Scanner.SearchAll`
shows the inclusive bound.
