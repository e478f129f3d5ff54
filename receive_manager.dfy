/**
  The receiving side of a file transfer: a table of transfers in progress,
  keyed by the sender's address. A header delivery opens a transfer, every
  other delivery from that sender is file content, and the transfer completes
  once the announced number of bytes has arrived.
*/
module ReceiveManager {
  import opened Text
  import opened Utf8
  import opened TransferModels

  /** A file written to the cache directory: its name and its bytes. */
  datatype ReceivedFile = ReceivedFile(path: string, contents: seq<Byte>)

  /** `ReceiveResult`; its `None` case is called `NoResult` here. */
  datatype ReceiveResult =
    | Progress(percent: int)
    | FileReady(file: ReceivedFile, fileName: string, fileType: PacketType)
    | NoResult

  /** What a `TransferState` holds, as a value: `written` is what went to its output stream. */
  datatype Transfer = Transfer(
    fileType: PacketType,
    fileName: string,
    totalSize: int,
    currentSize: int,
    outputFile: string,
    written: seq<Byte>)

  /** Header metadata `fileName|size`: the text before the first `|`, and the
      second field as a `Long`, 0 when it is missing or not a number. (The
      "unknown" fallback for the name cannot happen: a split has at least one part.) */
  function ParseMeta(meta: string): (string, int) {
    var parts := Split(meta, "|", 0);
    var size := if |parts| >= 2 then
      match ParseLong(parts[1]) case Some(v) => v case None => 0
    else 0;
    (parts[0], size)
  }

  /** Metadata written as `name|size`, with no `|` in the name, reads back as (name, size). */
  lemma ParseMetaOfWritten(name: string, size: int)
    requires '|' !in name && LONG_MIN <= size <= LONG_MAX
    ensures ParseMeta(name + "|" + IntToDecimal(size)) == (name, size)
  {
    var digits := IntToDecimal(size);
    var meta := name + "|" + digits;
    forall j: nat | j < |name| ensures !OccursAt(meta, "|", j) {
      assert meta[j..j + 1][0] == name[j];
    }
    assert OccursAt(meta, "|", |name|) by {
      assert meta[|name|..|name| + 1] == "|";
    }
    IndexOfFirst(meta, "|", |name|);
    assert meta[..|name|] == name;
    assert meta[|name| + 1..] == digits;
    assert '|' !in digits by {
      if size < 0 {
        assert digits == "-" + NatToDecimal(-size);
        assert forall i :: 1 <= i < |digits| ==> digits[i] == NatToDecimal(-size)[i - 1];
      }
    }
    ContainsChar(digits, '|');
    assert Split(digits, "|", 0) == [digits];
    assert Split(meta, "|", 0) == [name, digits];
    ParseDecimal(size, LONG_MIN, LONG_MAX);
  }

  /** `File(cacheDir, "rx_${now}_$fileName")`, `now` being the clock reading. */
  function OutputFileName(now: int, fileName: string): string {
    "rx_" + IntToDecimal(now) + "_" + fileName
  }

  /** `((currentSize * 100) / totalSize).toInt()` when `totalSize > 0` (Kotlin division truncates), else 0. */
  function Percent(current: int, total: int): int {
    if total <= 0 then 0
    else if current >= 0 then (current * 100) / total
    else -((-current * 100) / total)
  }

  /** A table in which every transfer's byte count is the number of bytes it has written. */
  predicate Consistent(table: map<string, Transfer>) {
    forall a :: a in table ==> table[a].currentSize == |table[a].written|
  }

  /** `String(data).startsWith("HEAD|||")`. */
  predicate IsHeader(data: seq<Byte>) {
    StartsWith(Decode(data), HEAD_PREFIX)
  }

  /** A header delivery: a transfer is opened when the header parses and the file can be created. */
  function HeaderStep(table: map<string, Transfer>, address: string, text: string,
                      now: int, createOk: bool): (map<string, Transfer>, ReceiveResult)
  {
    match ParseHeader(text)
    case None => (table, NoResult)
    case Some((t, meta)) =>
      if !createOk then (table, NoResult)
      else
        var (name, size) := ParseMeta(meta);
        (table[address := Transfer(t, name, size, 0, OutputFileName(now, name), [])], Progress(0))
  }

  /** Any other delivery: content for the sender's transfer, if there is one. */
  function ChunkStep(table: map<string, Transfer>, address: string, data: seq<Byte>,
                     writeOk: bool): (map<string, Transfer>, ReceiveResult)
  {
    if address !in table then (table, NoResult)
    else
      var st := table[address];
      if !writeOk then (table - {address}, NoResult)
      else
        var current := st.currentSize + |data|;
        if current >= st.totalSize then
          (table - {address}, FileReady(ReceivedFile(st.outputFile, st.written + data), st.fileName, st.fileType))
        else
          (table[address := st.(currentSize := current, written := st.written + data)],
           Progress(Percent(current, st.totalSize)))
  }

  /**
    One call of `processPacket(address, data)` on the table of transfers.
    `createOk` says whether the header's `try` block gets through: creating
    the output file and stream and closing the sender's old stream, if any
    (a failure of either returns `None` with the table unchanged).
    `writeOk` says whether the chunk's `try` block gets through: writing the
    chunk and, when it completes the file, closing the stream (a failure of
    either ends in the `catch`, which removes the transfer).
  */
  function Step(table: map<string, Transfer>, address: string, data: seq<Byte>,
                now: int, createOk: bool, writeOk: bool): (map<string, Transfer>, ReceiveResult)
  {
    if IsHeader(data) then HeaderStep(table, address, Decode(data), now, createOk)
    else ChunkStep(table, address, data, writeOk)
  }

  /** The header-recognition test of `Step`, stated on the bytes: they begin with the bytes of `HEAD|||`. */
  lemma HeaderTestOnBytes(data: seq<Byte>)
    ensures IsHeader(data)
            <==> |HEAD_PREFIX| <= |data| && data[..|HEAD_PREFIX|] == Encode(HEAD_PREFIX)
  {
    assert IsAscii(HEAD_PREFIX);
    AsciiPrefix(data, HEAD_PREFIX);
  }

  /**
    A header that parses opens a fresh transfer (nothing written, count 0) for
    the sender and reports 0%; a transfer already active for that sender is
    replaced, so bytes never carry over from one transfer to the next.
  */
  lemma HeaderOpensFreshTransfer(table: map<string, Transfer>, address: string, data: seq<Byte>,
                                 now: int, writeOk: bool, t: PacketType, meta: string)
    requires ParseHeader(Decode(data)) == Some((t, meta))
    ensures var (table', r) := Step(table, address, data, now, true, writeOk);
      r == Progress(0) && address in table' &&
      table'[address] == Transfer(t, ParseMeta(meta).0, ParseMeta(meta).1, 0,
                                  OutputFileName(now, ParseMeta(meta).0), [])
  {
  }

  /** A delivery that starts with `HEAD|||` but does not parse, or whose file cannot be created,
      reports nothing and changes nothing. */
  lemma FailedHeaderChangesNothing(table: map<string, Transfer>, address: string, data: seq<Byte>,
                                   now: int, createOk: bool, writeOk: bool)
    requires IsHeader(data)
    requires ParseHeader(Decode(data)).None? || !createOk
    ensures Step(table, address, data, now, createOk, writeOk) == (table, NoResult)
  {
  }

  /** A non-header delivery from a sender with no transfer reports nothing and changes nothing. */
  lemma StrayChunkIgnored(table: map<string, Transfer>, address: string, data: seq<Byte>,
                          now: int, createOk: bool, writeOk: bool)
    requires !IsHeader(data) && address !in table
    ensures Step(table, address, data, now, createOk, writeOk) == (table, NoResult)
  {
  }

  /**
    A chunk for an active transfer appends its bytes and raises the count by
    exactly its length. When the count reaches the announced size the transfer
    is removed and the file, with every byte written, is reported; otherwise
    the transfer stays and a percentage below 100 is reported.
  */
  lemma ChunkAdvancesTransfer(table: map<string, Transfer>, address: string, data: seq<Byte>, now: int,
                              createOk: bool)
    requires Consistent(table)
    requires !IsHeader(data) && address in table
    ensures var st := table[address];
      var current := st.currentSize + |data|;
      var (table', r) := Step(table, address, data, now, createOk, true);
      (current >= st.totalSize ==>
        address !in table' &&
        r == FileReady(ReceivedFile(st.outputFile, st.written + data), st.fileName, st.fileType)) &&
      (current < st.totalSize ==>
        address in table' && table'[address].written == st.written + data &&
        table'[address].currentSize == current &&
        r.Progress? && 0 <= r.percent < 100)
  {
    var st := table[address];
    var current := st.currentSize + |data|;
    var res := Step(table, address, data, now, createOk, true);
    if current >= st.totalSize {
      assert res == (table - {address},
                     FileReady(ReceivedFile(st.outputFile, st.written + data), st.fileName, st.fileType));
    } else {
      assert res == (table[address := st.(currentSize := current, written := st.written + data)],
                     Progress(Percent(current, st.totalSize)));
      PercentBelowHundred(current, st.totalSize);
    }
  }

  lemma PercentBelowHundred(current: int, total: int)
    requires 0 <= current < total
    ensures 0 <= Percent(current, total) < 100
  {
    assert current * 100 < total * 100;
  }

  /** A failed write ends the transfer: it is removed and nothing is reported. */
  lemma FailedWriteEndsTransfer(table: map<string, Transfer>, address: string, data: seq<Byte>, now: int,
                                createOk: bool)
    requires !IsHeader(data) && address in table
    ensures Step(table, address, data, now, createOk, false) == (table - {address}, NoResult)
  {
  }

  /** A delivery from one sender never touches another sender's transfer. */
  lemma OtherSendersUntouched(table: map<string, Transfer>, address: string, data: seq<Byte>,
                              now: int, createOk: bool, writeOk: bool, other: string)
    requires other != address
    ensures var table' := Step(table, address, data, now, createOk, writeOk).0;
      (other in table' <==> other in table) && (other in table ==> table'[other] == table[other])
  {
  }

  /** Every transfer's count stays equal to the number of bytes it has written. */
  lemma StepKeepsConsistent(table: map<string, Transfer>, address: string, data: seq<Byte>,
                            now: int, createOk: bool, writeOk: bool)
    requires Consistent(table)
    ensures Consistent(Step(table, address, data, now, createOk, writeOk).0)
  {
  }

  /** The file content and the bookkeeping of one transfer, updated in place. */
  class TransferState {
    const fileType: PacketType
    const fileName: string
    const totalSize: int
    var currentSize: int
    const outputFile: string
    /** The bytes written so far to the output stream. */
    var written: seq<Byte>
    var closed: bool
    /** The sender whose transfer this is. */
    ghost const owner: string

    constructor (fileType: PacketType, fileName: string, totalSize: int, outputFile: string, ghost owner: string)
      ensures this.owner == owner
      ensures this.fileType == fileType && this.fileName == fileName
      ensures this.totalSize == totalSize && this.outputFile == outputFile
      ensures currentSize == 0 && written == [] && !closed
    {
      this.fileType := fileType;
      this.fileName := fileName;
      this.totalSize := totalSize;
      this.outputFile := outputFile;
      this.owner := owner;
      currentSize := 0;
      written := [];
      closed := false;
    }

    function View(): Transfer
      reads this
    {
      Transfer(fileType, fileName, totalSize, currentSize, outputFile, written)
    }

    /** `stream.write(data)`. */
    method Write(data: seq<Byte>)
      modifies this
      ensures written == old(written) + data
      ensures currentSize == old(currentSize) && closed == old(closed)
    {
      written := written + data;
    }

    /** `stream.close()`. */
    method Close()
      modifies this
      ensures closed
      ensures written == old(written) && currentSize == old(currentSize)
    {
      closed := true;
    }
  }

  class ReceiveManager {
    var activeTransfers: map<string, TransferState>
    /** The active transfers, as values. */
    ghost var table: map<string, Transfer>

    function States(): set<TransferState>
      reads this
    {
      activeTransfers.Values
    }

    /** `table` mirrors the states; each active transfer is its sender's own, with an open stream,
        and its count matches what it wrote. */
    ghost predicate Valid()
      reads this, States()
    {
      activeTransfers.Keys == table.Keys &&
      (forall a :: a in activeTransfers ==>
         activeTransfers[a].owner == a && activeTransfers[a].View() == table[a] && !activeTransfers[a].closed) &&
      Consistent(table)
    }

    constructor ()
      ensures Valid() && table == map[]
    {
      activeTransfers := map[];
      table := map[];
    }

    /** `isActive(address)`: a transfer from that sender is in progress. */
    function IsActive(address: string): (b: bool)
      reads this, States()
      requires Valid()
      ensures b <==> address in table
    {
      address in activeTransfers
    }

    /** Puts a fresh transfer for `address` in the table, closing the stream of the one it replaces. */
    method StartTransfer(address: string, t: PacketType, name: string, size: int, file: string)
      requires Valid()
      modifies this, States()
      ensures Valid()
      ensures table == old(table)[address := Transfer(t, name, size, 0, file, [])]
      ensures forall a :: a in old(activeTransfers) && a != address ==>
        a in activeTransfers && activeTransfers[a] == old(activeTransfers[a])
      ensures address in old(activeTransfers) ==>
        old(activeTransfers[address]).closed && activeTransfers[address] != old(activeTransfers[address])
    {
      if address in activeTransfers {
        EndTransfer(address);
      }
      OpenTransfer(address, t, name, size, file);
    }

    /** Adds a fresh transfer for a sender that has none. */
    method OpenTransfer(address: string, t: PacketType, name: string, size: int, file: string)
      requires Valid() && address !in activeTransfers
      modifies this
      ensures Valid()
      ensures table == old(table)[address := Transfer(t, name, size, 0, file, [])]
      ensures address in activeTransfers && fresh(activeTransfers[address])
      ensures activeTransfers == old(activeTransfers)[address := activeTransfers[address]]
    {
      var state := new TransferState(t, name, size, file, address);
      activeTransfers := activeTransfers[address := state];
      table := table[address := state.View()];
    }

    /** Closes the stream of the transfer for `address` and removes it from the table. */
    method EndTransfer(address: string)
      requires Valid() && address in activeTransfers
      modifies this, activeTransfers[address]
      ensures Valid()
      ensures table == old(table) - {address}
      ensures activeTransfers == old(activeTransfers) - {address}
      ensures old(activeTransfers[address]).closed
      ensures old(activeTransfers[address]).View() == old(activeTransfers[address].View())
    {
      var state := activeTransfers[address];
      state.Close();
      activeTransfers := activeTransfers - {address};
      table := table - {address};
      forall a | a in activeTransfers
        ensures activeTransfers[a].owner == a && activeTransfers[a].View() == table[a] && !activeTransfers[a].closed
      {
        assert activeTransfers[a] == old(activeTransfers[a]) != state;
      }
    }

    /** Writes a chunk to the stream of the transfer for `address` and raises its byte count. */
    method AppendChunk(address: string, data: seq<Byte>)
      requires Valid() && address in activeTransfers
      modifies this, activeTransfers[address]
      ensures Valid()
      ensures activeTransfers == old(activeTransfers)
      ensures table == old(table)[address := old(table[address]).(
        currentSize := old(table[address].currentSize) + |data|,
        written := old(table[address].written) + data)]
    {
      var state := activeTransfers[address];
      state.Write(data);
      state.currentSize := state.currentSize + |data|;
      table := table[address := state.View()];
      forall a | a in activeTransfers
        ensures activeTransfers[a].owner == a && activeTransfers[a].View() == table[a] && !activeTransfers[a].closed
      {
        if a != address {
          assert activeTransfers[a] != state;
        }
      }
    }

    /** The content path of `processPacket`: append to the sender's transfer, if there is one. */
    method AcceptChunk(address: string, data: seq<Byte>, writeOk: bool) returns (r: ReceiveResult)
      requires Valid()
      modifies this, States()
      ensures Valid()
      ensures (table, r) == ChunkStep(old(table), address, data, writeOk)
      ensures forall a :: a in old(activeTransfers) && a != address ==>
        a in activeTransfers && activeTransfers[a] == old(activeTransfers[a])
      ensures address in old(activeTransfers) && address !in activeTransfers ==>
        old(activeTransfers[address]).closed
      ensures address in activeTransfers ==> activeTransfers[address] == old(activeTransfers[address])
    {
      if address !in activeTransfers {
        return NoResult;
      }
      if !writeOk {
        EndTransfer(address);
        return NoResult;
      }
      var state := activeTransfers[address];
      ghost var before := table;
      AppendChunk(address, data);
      ghost var appended := table;
      assert state.View() == appended[address];
      if state.currentSize >= state.totalSize {
        EndTransfer(address);
        assert state.View() == appended[address];
        assert table == before - {address};
        return FileReady(ReceivedFile(state.outputFile, state.written), state.fileName, state.fileType);
      }
      return Progress(Percent(state.currentSize, state.totalSize));
    }

    /** `processPacket(address, data)`; see `Step` for the oracles. */
    method ProcessPacket(address: string, data: seq<Byte>, now: int, createOk: bool, writeOk: bool)
      returns (r: ReceiveResult)
      requires Valid()
      modifies this, States()
      ensures Valid()
      ensures (table, r) == Step(old(table), address, data, now, createOk, writeOk)
      ensures forall a :: a in old(activeTransfers) && a != address ==>
        a in activeTransfers && activeTransfers[a] == old(activeTransfers[a])
      ensures (address in old(activeTransfers) &&
               (address !in activeTransfers || activeTransfers[address] != old(activeTransfers[address])))
              ==> old(activeTransfers[address]).closed
    {
      if IsHeader(data) {
        var header := ParseHeader(Decode(data));
        if header.Some? && createOk {
          var (t, meta) := header.value;
          var (name, size) := ParseMeta(meta);
          StartTransfer(address, t, name, size, OutputFileName(now, name));
          return Progress(0);
        }
        return NoResult;
      }
      r := AcceptChunk(address, data, writeOk);
    }
  }
}
