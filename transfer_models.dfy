/**
  The transfer wire codec: packet kinds with their numeric ids, and the
  `HEAD|||<typeId>|||<meta>` header frame that announces a file transfer.
*/
module TransferModels {
  import opened Text

  /** The packet kinds, in declaration order; the id of each is its position. */
  datatype PacketType =
    | TEXT | IMAGE_HEADER | AUDIO_HEADER | FILE_HEADER | LOCATION | DATA_CHUNK | ACK | END

  function Id(t: PacketType): int {
    match t
    case TEXT => 0
    case IMAGE_HEADER => 1
    case AUDIO_HEADER => 2
    case FILE_HEADER => 3
    case LOCATION => 4
    case DATA_CHUNK => 5
    case ACK => 6
    case END => 7
  }

  /** `PacketType.entries`. */
  const ENTRIES: seq<PacketType> :=
    [TEXT, IMAGE_HEADER, AUDIO_HEADER, FILE_HEADER, LOCATION, DATA_CHUNK, ACK, END]

  const DELIMITER: string := "|||"
  const MAX_CHUNK_SIZE: nat := 490
  const HEAD_PREFIX: string := "HEAD" + DELIMITER

  /** `entries.find { it.id == id }`: the first entry with that id, if any. */
  function FindById(entries: seq<PacketType>, id: int): (r: Option<PacketType>)
    ensures r.Some? ==> r.value in entries && Id(r.value) == id
    ensures r.None? ==> forall t :: t in entries ==> Id(t) != id
  {
    if |entries| == 0 then None
    else if Id(entries[0]) == id then Some(entries[0])
    else FindById(entries[1..], id)
  }

  /** `PacketType.fromId`: the entry with the given id, TEXT when there is none. */
  function FromId(id: int): (t: PacketType)
    ensures 0 <= id <= 7 ==> Id(t) == id
    ensures !(0 <= id <= 7) ==> t == TEXT
  {
    assert 0 <= id < |ENTRIES| ==> ENTRIES[id] in ENTRIES && Id(ENTRIES[id]) == id;
    match FindById(ENTRIES, id)
    case Some(t) => t
    case None => TEXT
  }

  /** Every packet type is found again from its own id. */
  lemma FromIdOfId(t: PacketType)
    ensures FromId(Id(t)) == t
  {
    assert t in ENTRIES;
  }

  /** `createHeader(type, metaData)`. */
  function CreateHeader(t: PacketType, meta: string): string {
    "HEAD" + DELIMITER + IntToDecimal(Id(t)) + DELIMITER + meta
  }

  /** The header is the prefix, one decimal digit for the type, the delimiter and the metadata. */
  lemma CreateHeaderShape(t: PacketType, meta: string)
    ensures CreateHeader(t, meta) == HEAD_PREFIX + [DigitChar(Id(t))] + DELIMITER + meta
    ensures StartsWith(CreateHeader(t, meta), HEAD_PREFIX)
  {
    assert IntToDecimal(Id(t)) == [DigitChar(Id(t))];
    var h := CreateHeader(t, meta);
    assert h[..|HEAD_PREFIX|] == HEAD_PREFIX;
  }

  /**
    `parseHeader(data)`: null unless `data` starts with `HEAD|||`; then split at
    most twice on `|||`, null when there are fewer than three parts or the type
    field is not an `Int`, otherwise the packet type and the remaining text.
  */
  function ParseHeader(data: string): (r: Option<(PacketType, string)>)
    ensures !StartsWith(data, HEAD_PREFIX) ==> r.None?
    ensures StartsWith(data, HEAD_PREFIX) ==>
      var body := data[|HEAD_PREFIX|..];
      var i := IndexOf(body, DELIMITER);
      (r.Some? <==> i >= 0 && ParseInt(body[..i]).Some?) &&
      (r.Some? ==> r.value == (FromId(ParseInt(body[..i]).value), body[i + |DELIMITER|..]))
  {
    if !StartsWith(data, HEAD_PREFIX) then None
    else
      var parts := Split(data, DELIMITER, 3);
      HeadPrefixSplit(data);
      SplitTwo(data[|HEAD_PREFIX|..], DELIMITER);
      if |parts| < 3 then None
      else
        match ParseInt(parts[1])
        case None => None
        case Some(id) => Some((FromId(id), parts[2]))
  }

  /** After the `HEAD|||` prefix, a split in three is a split of the rest in two. */
  lemma HeadPrefixSplit(data: string)
    requires StartsWith(data, HEAD_PREFIX)
    ensures Split(data, DELIMITER, 3) == ["HEAD"] + Split(data[|HEAD_PREFIX|..], DELIMITER, 2)
  {
    assert data[..4] == "HEAD";
    forall j: nat | j < 4 ensures !OccursAt(data, DELIMITER, j) {
      assert data[j] != '|';
      assert data[j..j + 3][0] == data[j];
    }
    assert data[4..7] == DELIMITER;
    IndexOfFirst(data, DELIMITER, 4);
  }

  /** Parsing a header gives back the packet type and the metadata, whatever the metadata holds. */
  lemma ParseCreateHeader(t: PacketType, meta: string)
    ensures ParseHeader(CreateHeader(t, meta)) == Some((t, meta))
  {
    CreateHeaderShape(t, meta);
    var h := CreateHeader(t, meta);
    var c := DigitChar(Id(t));
    var body := h[|HEAD_PREFIX|..];
    assert body == [c] + DELIMITER + meta;
    assert !OccursAt(body, DELIMITER, 0) by {
      assert body[0] == c;
    }
    assert OccursAt(body, DELIMITER, 1) by {
      assert body[1..4] == DELIMITER;
    }
    IndexOfFirst(body, DELIMITER, 1);
    assert body[..1] == [c] == IntToDecimal(Id(t));
    ParseDecimal(Id(t), INT_MIN, INT_MAX);
    FromIdOfId(t);
    assert body[1 + |DELIMITER|..] == meta;
  }
}
