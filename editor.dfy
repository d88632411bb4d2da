/**
  The memory editor object: the attached process, the candidate address
  list and the active value type, with the scan, filter, read, write,
  modify and open/close operations; and the index-or-hex address
  resolution the interactive menu applies to what the user types.
 */
module Editor {
  import opened Wrappers
  import opened Numeric
  import opened ValueCodec
  import opened TargetProcess
  import opened Scanner

  datatype EditorError =
    | OpenFailed(pid: int)                // the Exception raised when OpenProcess returns NULL
    | UnsupportedValueType(name: string)  // the ValueError of scan_memory and modify_value
    | SizeUnbound(name: string)           // the UnboundLocalError of filter_addresses and read_value on an unknown type
    | PackOutOfRange                      // the struct.error of struct.pack on a value outside the format's range
    | NullBaseAddress                     // the TypeError of `None + RegionSize` when a reported region's base is NULL

  // ------------------------------------------------------ the filter spec

  /** The `|pat|` bytes at `x` are all reachable and equal `pat`. */
  predicate HoldsPattern(mem: Memory, x: nat, pat: seq<uint8>) {
    ReadBytes(mem, x, |pat|) == Some(pat)
  }

  /** The order-preserving subsequence of `addrs` whose current bytes equal `pat`. */
  function KeepMatching(addrs: seq<nat>, mem: Memory, pat: seq<uint8>): seq<nat> {
    if addrs == [] then []
    else
      var last := addrs[|addrs| - 1];
      KeepMatching(addrs[..|addrs| - 1], mem, pat) + (if HoldsPattern(mem, last, pat) then [last] else [])
  }

  /** `a` is `b` with some elements left out, the rest kept in order. */
  predicate IsSubsequence(a: seq<nat>, b: seq<nat>) {
    if a == [] then true
    else if b == [] then false
    else if a[|a| - 1] == b[|b| - 1] then IsSubsequence(a[..|a| - 1], b[..|b| - 1])
    else IsSubsequence(a, b[..|b| - 1])
  }

  lemma {:induction false} SubsequenceNoLonger(a: seq<nat>, b: seq<nat>)
    requires IsSubsequence(a, b)
    ensures |a| <= |b|
  {
    if a != [] {
      if a[|a| - 1] == b[|b| - 1] {
        SubsequenceNoLonger(a[..|a| - 1], b[..|b| - 1]);
      } else {
        SubsequenceNoLonger(a, b[..|b| - 1]);
      }
    }
  }

  lemma {:induction false} SubsequenceExtend(a: seq<nat>, b: seq<nat>, x: nat)
    requires IsSubsequence(a, b)
    ensures IsSubsequence(a, b + [x])
    decreases |b|, 1
  {
    var b' := b + [x];
    assert b'[..|b'| - 1] == b;
    if a != [] && a[|a| - 1] == x {
      SubsequenceDropLast(a, b);
    }
  }

  lemma {:induction false} SubsequenceDropLast(a: seq<nat>, b: seq<nat>)
    requires a != [] && IsSubsequence(a, b)
    ensures IsSubsequence(a[..|a| - 1], b)
    decreases |b|, 0
  {
    var a' := a[..|a| - 1];
    var b' := b[..|b| - 1];
    assert b' + [b[|b| - 1]] == b;
    if a[|a| - 1] == b[|b| - 1] {
      SubsequenceExtend(a', b', b[|b| - 1]);
    } else {
      SubsequenceDropLast(a, b');
      SubsequenceExtend(a', b', b[|b| - 1]);
    }
  }

  /** Filtering keeps an order-preserving subsequence, so it never grows the list. */
  lemma {:induction false} FilterNarrows(addrs: seq<nat>, mem: Memory, pat: seq<uint8>)
    ensures IsSubsequence(KeepMatching(addrs, mem, pat), addrs)
    ensures |KeepMatching(addrs, mem, pat)| <= |addrs|
  {
    var k := KeepMatching(addrs, mem, pat);
    if addrs != [] {
      var init := addrs[..|addrs| - 1];
      var last := addrs[|addrs| - 1];
      var k' := KeepMatching(init, mem, pat);
      FilterNarrows(init, mem, pat);
      assert init + [last] == addrs;
      if HoldsPattern(mem, last, pat) {
        assert k == k' + [last];
        assert k[..|k| - 1] == k';
      } else {
        assert k == k';
        SubsequenceExtend(k', init, last);
      }
    }
    SubsequenceNoLonger(k, addrs);
  }

  /** An address survives the filter exactly when it was a candidate and its re-read equals the pattern. */
  lemma {:induction false} FilterMembers(addrs: seq<nat>, mem: Memory, pat: seq<uint8>, x: nat)
    ensures x in KeepMatching(addrs, mem, pat) <==> x in addrs && HoldsPattern(mem, x, pat)
  {
    if addrs != [] {
      var init := addrs[..|addrs| - 1];
      FilterMembers(init, mem, pat, x);
      assert addrs == init + [addrs[|addrs| - 1]];
    }
  }

  /** A list whose every address holds the pattern passes the filter unchanged. */
  lemma {:induction false} FilterKeepsAll(addrs: seq<nat>, mem: Memory, pat: seq<uint8>)
    requires forall i :: 0 <= i < |addrs| ==> HoldsPattern(mem, addrs[i], pat)
    ensures KeepMatching(addrs, mem, pat) == addrs
  {
    if addrs != [] {
      var init := addrs[..|addrs| - 1];
      FilterKeepsAll(init, mem, pat);
      assert init + [addrs[|addrs| - 1]] == addrs;
    }
  }

  /** Filtering twice with the same value against unchanged memory is the same as filtering once. */
  lemma FilterIdempotent(addrs: seq<nat>, mem: Memory, pat: seq<uint8>)
    ensures KeepMatching(KeepMatching(addrs, mem, pat), mem, pat) == KeepMatching(addrs, mem, pat)
  {
    var k := KeepMatching(addrs, mem, pat);
    forall i | 0 <= i < |k| ensures HoldsPattern(mem, k[i], pat) {
      FilterMembers(addrs, mem, pat, k[i]);
    }
    FilterKeepsAll(k, mem, pat);
  }

  /** A filter for the scanned value right after a scan, memory unchanged, keeps every scanned address. */
  lemma FilterAfterScan(regions: seq<Region>, mem: Memory, pat: seq<uint8>)
    ensures KeepMatching(Walk(regions, mem, pat, 0), mem, pat) == Walk(regions, mem, pat, 0)
  {
    var found := Walk(regions, mem, pat, 0);
    forall i | 0 <= i < |found| ensures HoldsPattern(mem, found[i], pat) {
      WalkSound(regions, mem, pat, 0, found[i]);
    }
    FilterKeepsAll(found, mem, pat);
  }

  // ----------------------------------------------- modify / read round trip

  /**
    Writing the encoding of an accepted value where every byte is reachable,
    then reading the kind's width back and decoding, yields the value
    (`v mod 256` for the byte kind).
   */
  lemma ModifyReadRoundTrip(mem: Memory, writable: set<nat>, address: nat, v: int, k: ValueKind)
    requires InRange(v, k) && ReadBytes(WritableView(mem, writable), address, Width(k)).Some?
    ensures ReadBytes(WriteBytes(mem, writable, address, Encode(v, k).value), address, Width(k))
              == Some(Encode(v, k).value)
    ensures Decode(Encode(v, k).value, k) == Some(Stored(v, k))
  {
    WriteThenRead(mem, writable, address, Encode(v, k).value);
    EncodeDecode(v, k);
  }

  // ------------------------------------------------------------- the object

  class MemoryEditor {
    /** `process_handle`: the attached process, null when there is no open handle. */
    var target: Target?
    var pid: Option<int>
    var processName: Option<string>
    var foundAddresses: seq<nat>
    var valueType: string

    /**
      Addresses are only ever recorded under a supported value type, so
      reading or filtering candidates with the stored type never fails on
      the type name.
     */
    ghost predicate Valid()
      reads this
    {
      foundAddresses != [] ==> ParseKind(valueType).Some?
    }

    constructor ()
      ensures Valid()
      ensures target == null && pid == None && processName == None
      ensures foundAddresses == [] && valueType == "int32"
    {
      target := null;
      pid := None;
      processName := None;
      foundAddresses := [];
      valueType := "int32";
    }

    /** The memory a read through the handle sees; nothing is reachable without a handle. */
    function CurrentMemory(): Memory
      reads this, target
    {
      if target == null then map[] else target.memory
    }

    /** The regions `VirtualQueryEx` reports through the handle; none without a handle. */
    function CurrentRegions(): seq<Region>
      reads this
    {
      if target == null then [] else target.regions
    }

    /**
      `open_process`: records the pid and the name the process table reports
      (or "Unknown"), then takes the handle `OpenProcess` returned. A failed
      open clears any previous handle and raises.
     */
    method OpenProcess(newPid: int, reportedName: Option<string>, handle: Target?) returns (r: Result<bool, EditorError>)
      requires Valid()
      modifies this
      ensures Valid()
      ensures pid == Some(newPid) && processName == Some(reportedName.GetOr("Unknown"))
      ensures target == handle
      ensures r == if handle == null then Err(OpenFailed(newPid)) else Ok(true)
      ensures foundAddresses == old(foundAddresses) && valueType == old(valueType)
    {
      pid := Some(newPid);
      processName := Some(reportedName.GetOr("Unknown"));
      target := handle;
      if target == null {
        return Err(OpenFailed(newPid));
      }
      return Ok(true);
    }

    /** `close_process`: releases the handle if there is one; calling it again changes nothing. */
    method CloseProcess()
      requires Valid()
      modifies this
      ensures Valid()
      ensures target == null
      ensures pid == old(pid) && processName == old(processName)
      ensures foundAddresses == old(foundAddresses) && valueType == old(valueType)
    {
      if target != null {
        target := null;
      }
    }

    /** `read_memory`: the bytes, only when the call succeeds and reports all `size` bytes read. */
    method ReadMemory(address: nat, size: nat) returns (data: Option<seq<uint8>>)
      ensures data == if target == null then None else ReadBytes(target.memory, address, size)
    {
      if target == null {
        return None;
      }
      var mem := target.memory;
      var bytesRead := MappedPrefix(mem, address, size);
      if bytesRead == size {
        data := Some(seq(size, i requires 0 <= i < size => mem[address + i]));
      } else {
        data := None;
      }
    }

    /** `write_memory`: writes what it can reach and reports success only when all bytes were written. */
    method WriteMemory(address: nat, data: seq<uint8>) returns (ok: bool)
      modifies target
      ensures target == null ==> !ok
      ensures target != null ==>
                && target.memory == WriteBytes(old(target.memory), target.writable, address, data)
                && ok == ReadBytes(WritableView(old(target.memory), target.writable), address, |data|).Some?
    {
      if target == null {
        return false;
      }
      var bytesWritten := MappedPrefix(WritableView(target.memory, target.writable), address, |data|);
      target.memory := WriteBytes(target.memory, target.writable, address, data);
      ok := bytesWritten == |data|;
    }

    /**
      The body of `scan_memory`'s walk for one region: a scannable region's
      first chunk is read and every offset the search visits is compared
      with the pattern, appending matches in address order.
     */
    method ScanRegion(region: Region, searchBytes: seq<uint8>)
      requires |searchBytes| > 0 && ParseKind(valueType).Some?
      modifies this
      ensures Valid()
      ensures foundAddresses == old(foundAddresses) + RegionHits(CurrentMemory(), region, searchBytes)
      ensures valueType == old(valueType) && target == old(target)
      ensures pid == old(pid) && processName == old(processName)
    {
      if !IsScannable(region) {
        return;
      }
      var size := |searchBytes|;
      var data := ReadMemory(region.base, ChunkSize(region));
      if data.None? || |data.value| == 0 {
        return;
      }
      var bytes := data.value;
      var offset := 0;
      while offset < |bytes| - size
        invariant 0 <= offset <= SearchBound(bytes, searchBytes)
        invariant valueType == old(valueType) && target == old(target)
        invariant pid == old(pid) && processName == old(processName)
        invariant foundAddresses == old(foundAddresses) + Hits(bytes, searchBytes, region.base, offset)
      {
        if bytes[offset .. offset + size] == searchBytes {
          foundAddresses := foundAddresses + [region.base + offset];
        }
        offset := offset + 1;
      }
    }

    /**
      `scan_memory`'s walk: from address 0, query the region at the address,
      scan it, and continue at its end, until the query fails or the ceiling
      is reached. A region reported with a NULL base raises TypeError before
      it adds an address: at `None + offset` on its first match, or else at
      `None + RegionSize`.
     */
    method WalkAddressSpace(searchBytes: seq<uint8>) returns (typeError: bool)
      requires |searchBytes| > 0 && ParseKind(valueType).Some?
      modifies this
      ensures Valid()
      ensures foundAddresses == old(foundAddresses) + WalkAsWritten(CurrentRegions(), CurrentMemory(), searchBytes, 0).found
      ensures typeError == WalkAsWritten(CurrentRegions(), CurrentMemory(), searchBytes, 0).typeError
      ensures valueType == old(valueType) && target == old(target)
      ensures pid == old(pid) && processName == old(processName)
    {
      ghost var regions := CurrentRegions();
      ghost var mem := CurrentMemory();
      ghost var whole := WalkAsWritten(regions, mem, searchBytes, 0);
      var address: nat := 0;
      typeError := false;
      while address < ADDRESS_CEILING
        invariant valueType == old(valueType) && target == old(target)
        invariant pid == old(pid) && processName == old(processName)
        invariant regions == CurrentRegions() && mem == CurrentMemory()
        invariant foundAddresses + WalkAsWritten(regions, mem, searchBytes, address).found
                  == old(foundAddresses) + whole.found
        invariant WalkAsWritten(regions, mem, searchBytes, address).typeError == whole.typeError
        invariant !typeError
        decreases ADDRESS_CEILING - address
      {
        var mbi := Query(CurrentRegions(), address);
        if mbi.None? || mbi.value.base == 0 {
          WrittenStops(regions, mem, searchBytes, address);
          typeError := mbi.Some?;
          return;
        }
        var region := mbi.value;
        WrittenAdvance(regions, mem, searchBytes, address, region, foundAddresses);
        ScanRegion(region, searchBytes);
        address := End(region);
      }
      WrittenStops(regions, mem, searchBytes, address);
    }

    /**
      `scan_memory`: clears the candidates and sets the value type before
      validating it, then walks the address space recording every match. A
      NULL base address met on the way raises, keeping what was recorded.
     */
    method ScanMemory(value: int, kindName: string) returns (r: Result<seq<nat>, EditorError>)
      requires Valid()
      modifies this
      ensures Valid()
      ensures valueType == kindName
      ensures target == old(target) && pid == old(pid) && processName == old(processName)
      ensures ParseKind(kindName).None? ==> r == Err(UnsupportedValueType(kindName)) && foundAddresses == []
      ensures ParseKind(kindName).Some? && !InRange(value, ParseKind(kindName).value) ==>
                r == Err(PackOutOfRange) && foundAddresses == []
      ensures ParseKind(kindName).Some? && InRange(value, ParseKind(kindName).value) ==>
                var w := WalkAsWritten(CurrentRegions(), CurrentMemory(), Encode(value, ParseKind(kindName).value).value, 0);
                && foundAddresses == w.found
                && r == (if w.typeError then Err(NullBaseAddress) else Ok(foundAddresses))
      ensures ParseKind(kindName).Some? && InRange(value, ParseKind(kindName).value) ==>
                foundAddresses == [] && r == (if Query(CurrentRegions(), 0).Some? then Err(NullBaseAddress) else Ok([]))
    {
      foundAddresses := [];
      valueType := kindName;
      var kind := ParseKind(kindName);
      if kind.None? {
        return Err(UnsupportedValueType(kindName));
      }
      var encoded := Encode(value, kind.value);
      if encoded.Err? {
        return Err(PackOutOfRange);
      }
      ScanFromZeroRaises(CurrentRegions(), CurrentMemory(), encoded.value);
      var typeError := WalkAddressSpace(encoded.value);
      if typeError {
        return Err(NullBaseAddress);
      }
      return Ok(foundAddresses);
    }

    /**
      `filter_addresses`: keeps the candidates whose current bytes equal the
      encoding of `value`. An explicit value type is used for this pass only.
     */
    method FilterAddresses(value: int, kindArg: Option<string>) returns (r: Result<seq<nat>, EditorError>)
      requires Valid()
      modifies this
      ensures Valid()
      ensures valueType == old(valueType)
      ensures target == old(target) && pid == old(pid) && processName == old(processName)
      ensures old(foundAddresses) == [] ==> r == Ok([]) && foundAddresses == []
      ensures kindArg.None? ==> !(r.Err? && r.error.SizeUnbound?)
      ensures old(foundAddresses) != [] ==>
                var name := kindArg.GetOr(old(valueType));
                match ParseKind(name)
                case None => r == Err(SizeUnbound(name)) && foundAddresses == old(foundAddresses)
                case Some(k) =>
                  if !InRange(value, k) then r == Err(PackOutOfRange) && foundAddresses == old(foundAddresses)
                  else
                    && foundAddresses == KeepMatching(old(foundAddresses), CurrentMemory(), Encode(value, k).value)
                    && r == Ok(foundAddresses)
    {
      if foundAddresses == [] {
        return Ok([]);
      }
      var name := kindArg.GetOr(valueType);
      var kind := ParseKind(name);
      if kind.None? {
        return Err(SizeUnbound(name));
      }
      var encoded := Encode(value, kind.value);
      if encoded.Err? {
        return Err(PackOutOfRange);
      }
      var searchBytes := encoded.value;
      var size := Width(kind.value);
      var filtered: seq<nat> := [];
      var i := 0;
      while i < |foundAddresses|
        invariant 0 <= i <= |foundAddresses|
        invariant unchanged(this)
        invariant filtered == KeepMatching(foundAddresses[..i], CurrentMemory(), searchBytes)
      {
        var address := foundAddresses[i];
        var data := ReadMemory(address, size);
        assert foundAddresses[..i + 1][..i] == foundAddresses[..i];
        if data.Some? && |data.value| > 0 && data.value == searchBytes {
          filtered := filtered + [address];
        }
        i := i + 1;
      }
      assert foundAddresses[..i] == foundAddresses;
      FilterNarrows(foundAddresses, CurrentMemory(), searchBytes);
      foundAddresses := filtered;
      return Ok(foundAddresses);
    }

    /** `modify_value`: encodes the value under the given or stored type and writes it. */
    method ModifyValue(address: nat, value: int, kindArg: Option<string>) returns (r: Result<bool, EditorError>)
      modifies target
      ensures target != null ==>
                var name := kindArg.GetOr(valueType);
                match ParseKind(name)
                case None => r == Err(UnsupportedValueType(name)) && target.memory == old(target.memory)
                case Some(k) =>
                  if !InRange(value, k) then r == Err(PackOutOfRange) && target.memory == old(target.memory)
                  else
                    && target.memory == WriteBytes(old(target.memory), target.writable, address, Encode(value, k).value)
                    && r == Ok(ReadBytes(WritableView(old(target.memory), target.writable), address, Width(k)).Some?)
      ensures target == null ==>
                var name := kindArg.GetOr(valueType);
                match ParseKind(name)
                case None => r == Err(UnsupportedValueType(name))
                case Some(k) => r == if InRange(value, k) then Ok(false) else Err(PackOutOfRange)
    {
      var name := kindArg.GetOr(valueType);
      var kind := ParseKind(name);
      if kind.None? {
        return Err(UnsupportedValueType(name));
      }
      var encoded := Encode(value, kind.value);
      if encoded.Err? {
        return Err(PackOutOfRange);
      }
      var ok := WriteMemory(address, encoded.value);
      return Ok(ok);
    }

    /**
      `read_value`: reads the type's width and decodes it; a failed read
      gives no value.
     */
    method ReadValue(address: nat, kindArg: Option<string>) returns (r: Result<Option<int>, EditorError>)
      ensures Valid() && foundAddresses != [] && kindArg.None? ==> r.Ok?
      ensures
        var name := kindArg.GetOr(valueType);
        match ParseKind(name)
        case None => r == Err(SizeUnbound(name))
        case Some(k) =>
          r == Ok(match ReadBytes(CurrentMemory(), address, Width(k))
                  case None => None
                  case Some(bytes) => Decode(bytes, k))
    {
      var name := kindArg.GetOr(valueType);
      var kind := ParseKind(name);
      if kind.None? {
        return Err(SizeUnbound(name));
      }
      var data := ReadMemory(address, Width(kind.value));
      if data.Some? && |data.value| > 0 {
        return Ok(Decode(data.value, kind.value));
      }
      return Ok(None);
    }

    /**
      The menu's modify command, on an attached process: write the value
      under the stored type and, when the write succeeds, read it back to
      show it. An unsupported type or a value `struct.pack` rejects raises
      before anything is written, and nothing is shown. Otherwise the write
      succeeds exactly when every byte is mapped and writable, and then the
      value shown is the value written (`v mod 256` for bytes).
     */
    method ModifyAndShow(address: nat, value: int) returns (ok: Result<bool, EditorError>, shown: Result<Option<int>, EditorError>)
      requires target != null
      modifies target
      ensures match ParseKind(valueType)
        case None =>
          ok == Err(UnsupportedValueType(valueType)) && shown == Ok(None) && target.memory == old(target.memory)
        case Some(k) =>
          if !InRange(value, k) then
            ok == Err(PackOutOfRange) && shown == Ok(None) && target.memory == old(target.memory)
          else
            && target.memory == WriteBytes(old(target.memory), target.writable, address, Encode(value, k).value)
            && ok == Ok(ReadBytes(WritableView(old(target.memory), target.writable), address, Width(k)).Some?)
            && shown == (if ok == Ok(true) then Ok(Some(Stored(value, k))) else Ok(None))
    {
      var kind := ParseKind(valueType);
      if kind.Some? && InRange(value, kind.value)
         && ReadBytes(WritableView(target.memory, target.writable), address, Width(kind.value)).Some? {
        ModifyReadRoundTrip(target.memory, target.writable, address, value, kind.value);
      }
      ok := ModifyValue(address, value, None);
      shown := Ok(None);
      if ok == Ok(true) {
        shown := ReadValue(address, None);
      }
    }
  }

  // ------------------------------------------------- address resolution

  datatype ResolveError =
    | InvalidIndex  // "Invalid index!": an index outside the candidate list
    | NotHex        // the ValueError of int(text, 16)

  /**
    The menu's address input: an all-digit string is an index into the
    candidates when there are any; anything else is read as hexadecimal.
   */
  function ResolveAddress(input: string, found: seq<nat>): Result<int, ResolveError> {
    if IsDigitString(input) && found != [] then
      var index := DigitsValue(input, 10);
      if index < |found| then Ok(found[index]) else Err(InvalidIndex)
    else
      match ParseInt(input, 16)
      case Some(a) => Ok(a)
      case None => Err(NotHex)
  }

  /** Typing the index the list shows selects that candidate. */
  lemma ResolveShownIndex(i: nat, found: seq<nat>)
    requires i < |found|
    ensures ResolveAddress(ToDigits(i, 10), found) == Ok(found[i])
  {
    DecimalRoundTrip(i);
    DigitsRoundTrip(i, 10);
  }

  /** Typing an address as the editor prints it selects that address, whatever the candidates. */
  lemma ResolveShownAddress(a: nat, found: seq<nat>)
    ensures ResolveAddress(FormatAddress(a), found) == Ok(a)
  {
    AddressRoundTrip(a);
  }

  /** With candidates, a digit string is an index: valid exactly below the list length, and then a candidate. */
  lemma ResolveIndexBounds(input: string, found: seq<nat>)
    requires IsDigitString(input) && found != []
    ensures ResolveAddress(input, found).Ok? <==> DigitsValue(input, 10) < |found|
    ensures ResolveAddress(input, found).Ok? ==> ResolveAddress(input, found).value in found
  {
  }

  /** Without candidates, a digit string is read as hexadecimal: "12" is address 0x12. */
  lemma ResolveDigitsWithoutCandidates(input: string)
    requires IsDigitString(input)
    ensures ResolveAddress(input, []) == Ok(DigitsValue(input, 16))
  {
    assert IsDecimalDigit(input[0]);
    DecimalDigitsAreHex(input);
  }

  lemma DecimalDigitsAreHex(s: string)
    requires AllDigitsIn(s, 10)
    ensures AllDigitsIn(s, 16)
  {
  }
}
