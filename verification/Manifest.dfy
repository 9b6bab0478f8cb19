/** internal/steam/manifest/parse.go: depot manifests, three protobuf levels
    inside magic-tagged sections. `unzip` gives the first entry of a zip archive, or
    None for anything that is not one. */
module Manifest {
  import opened ByteSeq
  import opened Results
  import opened Wire
  import opened Frame

  const MAGIC_PAYLOAD: Uint32 := 0x71F617D0
  const MAGIC_METADATA: Uint32 := 0x1F4812BE
  const MAGIC_SIGNATURE: Uint32 := 0x1B81B817
  const MAGIC_END: Uint32 := 0x32C415AB

  datatype Chunk = Chunk(sha: Bytes, crc: Uint32, offset: Uint64, originalSize: Uint32, compressedSize: Uint32)

  datatype File = File(
    filename: Bytes,
    size: Uint64,
    flags: Uint32,
    shaContent: Bytes,
    shaFilename: Bytes,
    linkTarget: Bytes,
    chunks: seq<Chunk>)

  datatype Depot = Depot(depotId: Uint32, gid: Uint64, filenamesEncrypted: bool, files: seq<File>)

  // ----------------------------------------------------- what fields describe

  /** The last field with this number, whatever its wire type, or a zero one. */
  function Last(fs: seq<Field>, number: nat): Field {
    if fs == [] then MkVarint(number, 0)
    else if fs[|fs| - 1].number == number then fs[|fs| - 1]
    else Last(fs[..|fs| - 1], number)
  }

  /** A 64-bit member is read as fixed64 or as varint. */
  function Number64(f: Field): Uint64 {
    if f.Wire() == FIXED64 then f.Fixed64() else f.Varint()
  }

  function Crc(f: Field): Uint32 {
    if f.Wire() == FIXED32 then f.Fixed32() else f.Varint() % TWO_32
  }

  function ChunkOf(fs: seq<Field>): Chunk {
    Chunk(
      Last(fs, 1).Content(),
      Crc(Last(fs, 2)),
      Number64(Last(fs, 3)),
      Last(fs, 4).Varint() % TWO_32,
      Last(fs, 5).Varint() % TWO_32)
  }

  function ParsedChunk(data: Bytes): Outcome<Chunk> {
    var d := ReadFields(data, 0, Lax);
    match d.status
    case Malformed => Fail
    case Fault => Crash
    case Done => if ChunkOf(d.fields).sha == [] then Fail else Ok(ChunkOf(d.fields))
  }

  /** Add one result to a list: a failure is dropped, a panic is final. */
  function Collect<T>(list: Outcome<seq<T>>, r: Outcome<T>): Outcome<seq<T>> {
    if !list.Ok? then list
    else match r
      case Ok(x) => Ok(list.value + [x])
      case Fail => list
      case Crash => Crash
  }

  predicate IsNested(f: Field, number: nat) {
    f.number == number && f.Wire() == BYTES
  }

  function ChunksOf(fs: seq<Field>): Outcome<seq<Chunk>> {
    if fs == [] then Ok([])
    else
      var init, f := ChunksOf(fs[..|fs| - 1]), fs[|fs| - 1];
      if IsNested(f, 6) then Collect(init, ParsedChunk(f.Content())) else init
  }

  function FileOf(fs: seq<Field>, chunks: seq<Chunk>): File {
    File(
      Last(fs, 1).Content(),
      Number64(Last(fs, 2)),
      Last(fs, 3).Varint() % TWO_32,
      Last(fs, 5).Content(),
      Last(fs, 4).Content(),
      Last(fs, 7).Content(),
      chunks)
  }

  function ParsedFile(data: Bytes): Outcome<File> {
    var d := ReadFields(data, 0, Lax);
    match d.status
    case Malformed => Fail
    case Fault => Crash
    case Done =>
      match ChunksOf(d.fields)
      case Ok(chunks) => Ok(FileOf(d.fields, chunks))
      case _ => Crash
  }

  function FilesOf(fs: seq<Field>): Outcome<seq<File>> {
    if fs == [] then Ok([])
    else
      var init, f := FilesOf(fs[..|fs| - 1]), fs[|fs| - 1];
      if IsNested(f, 1) then Collect(init, ParsedFile(f.Content())) else init
  }

  function ParsedPayload(data: Bytes): Outcome<seq<File>> {
    var d := ReadFields(data, 0, Lax);
    match d.status
    case Malformed => Fail
    case Fault => Crash
    case Done => FilesOf(d.fields)
  }

  function DepotOf(fs: seq<Field>, files: seq<File>): Depot {
    Depot(Last(fs, 1).Varint() % TWO_32, Number64(Last(fs, 2)), Last(fs, 4).Varint() != 0, files)
  }

  /** The section at the front of s, and what follows it. */
  function SectionOf(s: Bytes, magic: Uint32): (Outcome<Bytes>, Bytes) {
    if |s| < 8 then (Fail, []) else
    var length, rest := Word32(s[4..8]), s[8..];
    if Word32(s[0..4]) != magic then (Fail, rest)
    else if length > |rest| then (Fail, [])
    else (Ok(rest[..length]), rest[length..])
  }

  function Parsed(data: Bytes, unzip: Bytes -> Option<Bytes>): Outcome<Depot> {
    ParsedSections(unzip(data).GetOr(data))
  }

  function ParsedSections(data: Bytes): Outcome<Depot> {
    var (payload, s1) := SectionOf(data, MAGIC_PAYLOAD);
    if !payload.Ok? then Fail else
    var (meta, s2) := SectionOf(s1, MAGIC_METADATA);
    if !meta.Ok? then Fail else
    var (signature, s3) := SectionOf(s2, MAGIC_SIGNATURE);
    if !signature.Ok? || |s3| < 4 || Word32(s3[..4]) != MAGIC_END then Fail else
    var d := ReadFields(meta.value, 0, Lax);
    match d.status
    case Malformed => Fail
    case Fault => Crash
    case Done =>
      match ParsedPayload(payload.value)
      case Fail => Fail
      case Crash => Crash
      case Ok(files) => Ok(DepotOf(d.fields, files))
  }

  // ---------------------------------------------------------------- the parser

  lemma LastSnoc(fs: seq<Field>, f: Field, number: nat)
    ensures Last(fs + [f], number) == if f.number == number then f else Last(fs, number)
  {
    assert (fs + [f])[..|fs|] == fs;
  }

  lemma Snoc(fs: seq<Field>, k: nat)
    requires k < |fs|
    ensures fs[..k + 1] == fs[..k] + [fs[k]] && fs[..k + 1][..k] == fs[..k]
    ensures forall number :: Last(fs[..k + 1], number) == if fs[k].number == number then fs[k] else Last(fs[..k], number)
  {
    forall number { LastSnoc(fs[..k], fs[k], number); }
  }

  method ParseChunk(data: Bytes) returns (res: Outcome<Chunk>)
    ensures res == ParsedChunk(data)
  {
    hide ReadFields;
    var fields, status := Decode(data);
    if status.Malformed? { return Fail; }
    if status.Fault? { return Crash; }
    var ch := Chunk([], 0, 0, 0, 0);
    for k := 0 to |fields|
      invariant ch == ChunkOf(fields[..k])
    {
      Snoc(fields, k);
      var f := fields[k];
      hide Last;
      match f.number {
        case 1 => ch := ch.(sha := f.Content());
        case 2 => ch := ch.(crc := if f.Wire() == FIXED32 then f.Fixed32() else f.Varint() % TWO_32);
        case 3 => ch := ch.(offset := if f.Wire() == FIXED64 then f.Fixed64() else f.Varint());
        case 4 => ch := ch.(originalSize := f.Varint() % TWO_32);
        case 5 => ch := ch.(compressedSize := f.Varint() % TWO_32);
        case _ =>
      }
    }
    assert fields[..|fields|] == fields;
    if |ch.sha| == 0 { return Fail; }
    return Ok(ch);
  }

  lemma {:induction false} ChunksCrash(fs: seq<Field>, k: nat)
    requires k <= |fs| && !ChunksOf(fs[..k]).Ok?
    ensures !ChunksOf(fs).Ok?
  {
    if k < |fs| {
      assert fs[..|fs| - 1][..k] == fs[..k];
      ChunksCrash(fs[..|fs| - 1], k);
    } else {
      assert fs[..k] == fs;
    }
  }

  method ParseFileMapping(data: Bytes) returns (res: Outcome<File>)
    ensures res == ParsedFile(data)
  {
    hide ReadFields, ParsedChunk;
    var fields, status := Decode(data);
    if status.Malformed? { return Fail; }
    if status.Fault? { return Crash; }
    var file := File([], 0, 0, [], [], [], []);
    for k := 0 to |fields|
      invariant ChunksOf(fields[..k]) == Ok(file.chunks)
      invariant file == FileOf(fields[..k], file.chunks)
    {
      Snoc(fields, k);
      var f := fields[k];
      hide Last;
      match f.number {
        case 1 => file := file.(filename := f.Content());
        case 2 => file := file.(size := if f.Wire() == FIXED64 then f.Fixed64() else f.Varint());
        case 3 => file := file.(flags := f.Varint() % TWO_32);
        case 4 => file := file.(shaFilename := f.Content());
        case 5 => file := file.(shaContent := f.Content());
        case 6 =>
          if f.Wire() == BYTES {
            var ch := ParseChunk(f.Content());
            if ch.Crash? { ChunksCrash(fields, k + 1); return Crash; }
            if ch.Ok? { file := file.(chunks := file.chunks + [ch.value]); }
          }
        case 7 => file := file.(linkTarget := f.Content());
        case _ =>
      }
    }
    assert fields[..|fields|] == fields;
    return Ok(file);
  }

  lemma {:induction false} FilesCrash(fs: seq<Field>, k: nat)
    requires k <= |fs| && FilesOf(fs[..k]).Crash?
    ensures FilesOf(fs).Crash?
  {
    if k < |fs| {
      assert fs[..|fs| - 1][..k] == fs[..k];
      FilesCrash(fs[..|fs| - 1], k);
    } else {
      assert fs[..k] == fs;
    }
  }

  method ParsePayload(data: Bytes) returns (res: Outcome<seq<File>>)
    ensures res == ParsedPayload(data)
  {
    hide ReadFields, ParsedFile;
    var fields, status := Decode(data);
    if status.Malformed? { return Fail; }
    if status.Fault? { return Crash; }
    var files := [];
    for k := 0 to |fields|
      invariant FilesOf(fields[..k]) == Ok(files)
    {
      Snoc(fields, k);
      var f := fields[k];
      if f.number != 1 || f.Wire() != BYTES { continue; }
      var file := ParseFileMapping(f.Content());
      if file.Crash? { FilesCrash(fields, k + 1); return Crash; }
      if file.Fail? { continue; }
      files := files + [file.value];
    }
    assert fields[..|fields|] == fields;
    return Ok(files);
  }

  method ParseMetadata(data: Bytes) returns (status: Status, m: Depot)
    ensures status == ReadFields(data, 0, Lax).status
    ensures status.Done? ==> m == DepotOf(ReadFields(data, 0, Lax).fields, [])
  {
    hide ReadFields;
    var fields;
    fields, status := Decode(data);
    m := Depot(0, 0, false, []);
    if !status.Done? { return; }
    for k := 0 to |fields|
      invariant m == DepotOf(fields[..k], [])
    {
      Snoc(fields, k);
      var f := fields[k];
      hide Last;
      match f.number {
        case 1 => m := m.(depotId := f.Varint() % TWO_32);
        case 2 => m := m.(gid := if f.Wire() == FIXED64 then f.Fixed64() else f.Varint());
        case 4 => m := m.(filenamesEncrypted := f.Varint() != 0);
        case _ =>
      }
    }
    assert fields[..|fields|] == fields;
  }

  method ReadSection(r: Stream, wantMagic: Uint32) returns (res: Outcome<Bytes>)
    modifies r
    ensures (res, r.rest) == SectionOf(old(r.rest), wantMagic)
  {
    hide FromLittleEndian;
    var head := r.ReadFull(8);
    if !head.Full? { return Fail; }
    var hdr := head.data;
    assert hdr[0..4] == old(r.rest)[0..4] && hdr[4..8] == old(r.rest)[4..8];
    if Word32(hdr[0..4]) != wantMagic { return Fail; }
    var body := r.ReadFull(Word32(hdr[4..8]));
    if !body.Full? { return Fail; }
    return Ok(body.data);
  }

  method Parse(data: Bytes, unzip: Bytes -> Option<Bytes>) returns (res: Outcome<Depot>)
    ensures res == Parsed(data, unzip)
  {
    hide SectionOf, ReadFields, ParsedPayload, FromLittleEndian;
    var wrapped := unzip(data);
    var plain := if wrapped.Some? then wrapped.value else data;
    var r := new Stream(plain);
    var payload := ReadSection(r, MAGIC_PAYLOAD);
    if !payload.Ok? { return Fail; }
    var meta := ReadSection(r, MAGIC_METADATA);
    if !meta.Ok? { return Fail; }
    var signature := ReadSection(r, MAGIC_SIGNATURE);
    if !signature.Ok? { return Fail; }
    var end := r.ReadFull(4);
    if !end.Full? || Word32(end.data) != MAGIC_END { return Fail; }
    var status, m := ParseMetadata(meta.value);
    if status.Malformed? { return Fail; }
    if status.Fault? { return Crash; }
    var files := ParsePayload(payload.value);
    match files {
      case Fail => return Fail;
      case Crash => return Crash;
      case Ok(fs) => return Ok(m.(files := fs));
    }
  }

  // ---------------------------------------------------------------- the printer

  function ChunkFields(c: Chunk): seq<Field> {
    [MkBytes(1, c.sha), MkFixed32(2, c.crc), MkVarint(3, c.offset), MkVarint(4, c.originalSize), MkVarint(5, c.compressedSize)]
  }

  function ChunkBytes(c: Chunk): Bytes {
    FieldsBytes(ChunkFields(c))
  }

  function NestedChunks(cs: seq<Chunk>): seq<Field> {
    seq(|cs|, i requires 0 <= i < |cs| => MkBytes(6, ChunkBytes(cs[i])))
  }

  function PlainFields(f: File): seq<Field> {
    [MkBytes(1, f.filename), MkVarint(2, f.size), MkVarint(3, f.flags), MkBytes(4, f.shaFilename),
     MkBytes(5, f.shaContent), MkBytes(7, f.linkTarget)]
  }

  function FileFields(f: File): seq<Field> {
    PlainFields(f) + NestedChunks(f.chunks)
  }

  function FileBytes(f: File): Bytes {
    FieldsBytes(FileFields(f))
  }

  function NestedFiles(fs: seq<File>): seq<Field> {
    seq(|fs|, i requires 0 <= i < |fs| => MkBytes(1, FileBytes(fs[i])))
  }

  function PayloadBytes(fs: seq<File>): Bytes {
    FieldsBytes(NestedFiles(fs))
  }

  function MetadataFields(m: Depot): seq<Field> {
    [MkVarint(1, m.depotId), MkVarint(2, m.gid), MkBool(4, m.filenamesEncrypted)]
  }

  function MetadataBytes(m: Depot): Bytes {
    FieldsBytes(MetadataFields(m))
  }

  function Section(magic: Uint32, body: Bytes): Bytes {
    LittleEndian(magic, 4) + LittleEndian(|body|, 4) + body
  }

  function DepotBytes(m: Depot, signature: Bytes): Bytes {
    Section(MAGIC_PAYLOAD, PayloadBytes(m.files)) + Section(MAGIC_METADATA, MetadataBytes(m))
    + Section(MAGIC_SIGNATURE, signature) + LittleEndian(MAGIC_END, 4)
  }

  /** Sizes fit their fields and every chunk has a hash. */
  predicate Printable(m: Depot, signature: Bytes) {
    && |PayloadBytes(m.files)| < TWO_32 && |MetadataBytes(m)| < TWO_32 && |signature| < TWO_32
    && AllHashed(m.files)
  }

  predicate Hashed(f: File) {
    forall i :: 0 <= i < |f.chunks| ==> f.chunks[i].sha != []
  }

  predicate AllHashed(fs: seq<File>) {
    forall i :: 0 <= i < |fs| ==> Hashed(fs[i])
  }

  // ---------------------------------------------------------------- round trip

  lemma {:induction false} FieldWithin(fs: seq<Field>, i: nat)
    requires i < |fs|
    ensures |fs[i].Content()| <= |FieldsBytes(fs)|
  {
    hide VarintBytes, LittleEndian;
    if i > 0 { FieldWithin(fs[1..], i - 1); }
  }

  lemma SectionRead(magic: Uint32, body: Bytes, tail: Bytes)
    requires |body| < TWO_32
    ensures SectionOf(Section(magic, body) + tail, magic) == (Ok(body), tail)
  {
    hide LittleEndian, FromLittleEndian, Pow256;
    PowersOf256();
    LittleEndianInverse(magic, 4);
    LittleEndianInverse(|body|, 4);
    SectionParts(LittleEndian(magic, 4), LittleEndian(|body|, 4), body, tail);
  }

  lemma SectionParts(a: Bytes, b: Bytes, body: Bytes, tail: Bytes)
    requires |a| == |b| == 4
    ensures var s := a + b + body + tail;
            s[0..4] == a && s[4..8] == b && s[8..] == body + tail
            && s[8..][..|body|] == body && s[8..][|body|..] == tail
  {
    assert (body + tail)[..|body|] == body && (body + tail)[|body|..] == tail;
  }

  /** A section is read exactly where one is printed. */
  lemma SectionExact(s: Bytes, magic: Uint32, body: Bytes, rest: Bytes)
    ensures SectionOf(s, magic) == (Ok(body), rest) <==> |body| < TWO_32 && s == Section(magic, body) + rest
  {
    hide SectionOf, Section;
    if |body| < TWO_32 { SectionRead(magic, body, rest); }
    if SectionOf(s, magic) == (Ok(body), rest) { SectionTaken(s, magic, body, rest); }
  }

  lemma SectionTaken(s: Bytes, magic: Uint32, body: Bytes, rest: Bytes)
    requires SectionOf(s, magic) == (Ok(body), rest)
    ensures |body| < TWO_32 && s == Section(magic, body) + rest
  {
    LittleEndianOnto(s[0..4]);
    LittleEndianOnto(s[4..8]);
    hide LittleEndian, FromLittleEndian;
    assert s[8..] == body + rest && Section(magic, body) == s[0..4] + s[4..8] + body;
    hide SectionOf, Section;
    EightThenRest(s, body, rest);
  }

  lemma EightThenRest(s: Bytes, body: Bytes, rest: Bytes)
    requires |s| >= 8 && s[8..] == body + rest
    ensures s == s[0..4] + s[4..8] + body + rest
  {
  }

  /** The sections of a manifest file, and what may follow them. */
  ghost predicate Sections(data: Bytes, payload: Bytes, meta: Bytes, signature: Bytes, tail: Bytes) {
    && |payload| < TWO_32 && |meta| < TWO_32 && |signature| < TWO_32
    && data == Section(0x71F6_17D0, payload)
               + (Section(0x1F48_12BE, meta) + (Section(0x1B81_B817, signature) + (LittleEndian(0x32C4_15AB, 4) + tail)))
  }

  /** What metadata and payload give. */
  ghost predicate Holds(payload: Bytes, meta: Bytes, m: Depot) {
    var d := ReadFields(meta, 0, Lax);
    d.status.Done? && ParsedPayload(payload) == Ok(m.files) && DepotOf(d.fields, m.files) == m
  }

  /** Nothing else is accepted: the bytes, or what the archive holds, are the three
      sections in order and the end mark, and the manifest is what they hold. */
  lemma ParsedExact(data: Bytes, unzip: Bytes -> Option<Bytes>, m: Depot)
    ensures Parsed(data, unzip) == Ok(m)
            <==> exists payload, meta, signature, tail ::
                   Sections(unzip(data).GetOr(data), payload, meta, signature, tail) && Holds(payload, meta, m)
  {
    var plain := unzip(data).GetOr(data);
    hide SectionOf, ReadFields, ParsedPayload, DepotOf, LittleEndian, FromLittleEndian;
    if Parsed(data, unzip) == Ok(m) {
      var (payload, s1) := SectionOf(plain, MAGIC_PAYLOAD);
      var (meta, s2) := SectionOf(s1, MAGIC_METADATA);
      var (signature, s3) := SectionOf(s2, MAGIC_SIGNATURE);
      SectionExact(plain, MAGIC_PAYLOAD, payload.value, s1);
      SectionExact(s1, MAGIC_METADATA, meta.value, s2);
      SectionExact(s2, MAGIC_SIGNATURE, signature.value, s3);
      EndMark(s3);
      hide Section;
      FilesOfDepot(meta.value, ParsedPayload(payload.value).value);
      assert Sections(plain, payload.value, meta.value, signature.value, s3[4..]) && Holds(payload.value, meta.value, m);
    }
    if payload, meta, signature, tail :| Sections(plain, payload, meta, signature, tail) && Holds(payload, meta, m) {
      SectionsParsed(plain, payload, meta, signature, tail, m);
    }
  }

  lemma FilesOfDepot(meta: Bytes, files: seq<File>)
    ensures DepotOf(ReadFields(meta, 0, Lax).fields, files).files == files
  {
  }

  lemma SectionsParsed(data: Bytes, payload: Bytes, meta: Bytes, signature: Bytes, tail: Bytes, m: Depot)
    requires Sections(data, payload, meta, signature, tail) && Holds(payload, meta, m)
    ensures ParsedSections(data) == Ok(m)
  {
    hide SectionOf, ReadFields, ParsedPayload, DepotOf, LittleEndian, FromLittleEndian, Section;
    var end := LittleEndian(MAGIC_END, 4) + tail;
    var c := Section(MAGIC_SIGNATURE, signature) + end;
    var b := Section(MAGIC_METADATA, meta) + c;
    SectionExact(data, MAGIC_PAYLOAD, payload, b);
    SectionExact(b, MAGIC_METADATA, meta, c);
    SectionExact(c, MAGIC_SIGNATURE, signature, end);
    assert end[4..] == tail && end[..4] == LittleEndian(MAGIC_END, 4);
    EndMark(end);
  }

  lemma EndMark(s: Bytes)
    requires |s| >= 4
    ensures Word32(s[..4]) == MAGIC_END <==> s == LittleEndian(MAGIC_END, 4) + s[4..]
  {
    PowersOf256();
    LittleEndianInverse(MAGIC_END, 4);
    LittleEndianOnto(s[..4]);
    hide LittleEndian, FromLittleEndian;
    assert s == s[..4] + s[4..];
    if s == LittleEndian(MAGIC_END, 4) + s[4..] { assert s[..4] == LittleEndian(MAGIC_END, 4); }
  }

  /** How one more field changes a chunk: the last field of each number decides,
      and a member is zero or empty if that has another wire type. */
  lemma ChunkOfSnoc(fs: seq<Field>, f: Field)
    ensures var c, c' := ChunkOf(fs), ChunkOf(fs + [f]);
            c' == match f.number
                  case 1 => c.(sha := if f.MkBytes? then f.s else [])
                  case 2 => c.(crc := if f.MkFixed32? then f.d else if f.MkVarint? then f.v % 0x1_0000_0000 else 0)
                  case 3 => c.(offset := if f.MkFixed64? then f.w else if f.MkVarint? then f.v else 0)
                  case 4 => c.(originalSize := if f.MkVarint? then f.v % 0x1_0000_0000 else 0)
                  case 5 => c.(compressedSize := if f.MkVarint? then f.v % 0x1_0000_0000 else 0)
                  case _ => c
  {
    LastSnoc(fs, f, 1); LastSnoc(fs, f, 2); LastSnoc(fs, f, 3); LastSnoc(fs, f, 4); LastSnoc(fs, f, 5);
    hide Last;
  }

  lemma FileOfSnoc(fs: seq<Field>, f: Field, chunks: seq<Chunk>)
    ensures var r, r' := FileOf(fs, chunks), FileOf(fs + [f], chunks);
            var content := if f.MkBytes? then f.s else [];
            r' == match f.number
                  case 1 => r.(filename := content)
                  case 2 => r.(size := if f.MkFixed64? then f.w else if f.MkVarint? then f.v else 0)
                  case 3 => r.(flags := if f.MkVarint? then f.v % 0x1_0000_0000 else 0)
                  case 4 => r.(shaFilename := content)
                  case 5 => r.(shaContent := content)
                  case 7 => r.(linkTarget := content)
                  case _ => r
  {
    LastSnoc(fs, f, 1); LastSnoc(fs, f, 2); LastSnoc(fs, f, 3); LastSnoc(fs, f, 4); LastSnoc(fs, f, 5); LastSnoc(fs, f, 7);
    hide Last;
  }

  lemma DepotOfSnoc(fs: seq<Field>, f: Field, files: seq<File>)
    ensures var m, m' := DepotOf(fs, files), DepotOf(fs + [f], files);
            m' == match f.number
                  case 1 => m.(depotId := if f.MkVarint? then f.v % 0x1_0000_0000 else 0)
                  case 2 => m.(gid := if f.MkFixed64? then f.w else if f.MkVarint? then f.v else 0)
                  case 4 => m.(filenamesEncrypted := f.MkVarint? && f.v != 0)
                  case _ => m
  {
    LastSnoc(fs, f, 1); LastSnoc(fs, f, 2); LastSnoc(fs, f, 4);
    hide Last;
  }

  /** A chunk without a hash is refused. */
  lemma UnhashedRefused(c: Chunk)
    requires c.sha == [] && |ChunkBytes(c)| < TWO_63
    ensures ParsedChunk(ChunkBytes(c)) == Fail
  {
    ChunkOfFields(c);
    hide ReadFields, FieldsBytes, ChunkFields, ChunkOf;
    DecodeOfEncode(ChunkFields(c), Lax);
  }

  lemma ChunkOfFields(c: Chunk)
    ensures ChunkOf(ChunkFields(c)) == c && NumbersFit(ChunkFields(c))
  {
    var fs := ChunkFields(c);
    LastAt(fs, 0); LastAt(fs, 1); LastAt(fs, 2); LastAt(fs, 3); LastAt(fs, 4);
    hide Last;
  }

  lemma ChunkRoundTrip(c: Chunk)
    requires c.sha != [] && |ChunkBytes(c)| < TWO_63
    ensures ParsedChunk(ChunkBytes(c)) == Ok(c)
  {
    ChunkOfFields(c);
    hide ReadFields, FieldsBytes, ChunkFields, ChunkOf;
    DecodeOfEncode(ChunkFields(c), Lax);
  }

  lemma {:induction false} LastAt(fs: seq<Field>, i: nat)
    requires i < |fs| && forall j :: i < j < |fs| ==> fs[j].number != fs[i].number
    ensures Last(fs, fs[i].number) == fs[i]
  {
    if i < |fs| - 1 { LastAt(fs[..|fs| - 1], i); }
  }

  lemma {:induction false} LastBefore(fs: seq<Field>, more: seq<Field>, number: nat)
    requires forall j :: 0 <= j < |more| ==> more[j].number != number
    ensures Last(fs + more, number) == Last(fs, number)
  {
    if more == [] {
      assert fs + more == fs;
    } else {
      assert (fs + more)[..|fs + more| - 1] == fs + more[..|more| - 1];
      LastBefore(fs, more[..|more| - 1], number);
    }
  }

  lemma {:induction false} NoChunks(fs: seq<Field>)
    requires forall i :: 0 <= i < |fs| ==> !IsNested(fs[i], 6)
    ensures ChunksOf(fs) == Ok([])
  {
    hide IsNested;
    if fs != [] { NoChunks(fs[..|fs| - 1]); }
  }

  lemma NestedSnoc(cs: seq<Chunk>)
    requires cs != []
    ensures NestedChunks(cs) == NestedChunks(cs[..|cs| - 1]) + [MkBytes(6, ChunkBytes(cs[|cs| - 1]))]
  {
    hide ChunkBytes;
  }

  lemma ChunksOfSnoc(fs: seq<Field>, f: Field)
    requires IsNested(f, 6)
    ensures ChunksOf(fs + [f]) == Collect(ChunksOf(fs), ParsedChunk(f.Content()))
  {
    assert (fs + [f])[..|fs|] == fs;
  }

  lemma {:induction false} ChunksRoundTrip(fs: seq<Field>, cs: seq<Chunk>)
    requires forall i :: 0 <= i < |fs| ==> !IsNested(fs[i], 6)
    requires forall i :: 0 <= i < |cs| ==> cs[i].sha != [] && |ChunkBytes(cs[i])| < TWO_63
    ensures ChunksOf(fs + NestedChunks(cs)) == Ok(cs)
    decreases |cs|
  {
    hide ParsedChunk, ChunkBytes, ChunksOf, NestedChunks;
    if cs == [] {
      NoChunks(fs);
      assert fs + NestedChunks(cs) == fs by { NothingNested(); }
    } else {
      var init, c := cs[..|cs| - 1], cs[|cs| - 1];
      var f := MkBytes(6, ChunkBytes(c));
      ChunksRoundTrip(fs, init);
      ChunkRoundTrip(c);
      NestedSnoc(cs);
      assert fs + NestedChunks(cs) == fs + NestedChunks(init) + [f];
      ChunksOfSnoc(fs + NestedChunks(init), f);
      assert cs == init + [c];
    }
  }

  lemma NothingNested()
    ensures NestedChunks([]) == []
  {
  }

  lemma FileOfFields(f: File)
    ensures FileOf(FileFields(f), f.chunks) == f && NumbersFit(FileFields(f))
  {
    hide Last, ChunkBytes;
    var plain, nested := PlainFields(f), NestedChunks(f.chunks);
    LastAt(plain, 0); LastAt(plain, 1); LastAt(plain, 2); LastAt(plain, 3); LastAt(plain, 4); LastAt(plain, 5);
    LastBefore(plain, nested, 1); LastBefore(plain, nested, 2); LastBefore(plain, nested, 3);
    LastBefore(plain, nested, 4); LastBefore(plain, nested, 5); LastBefore(plain, nested, 7);
  }

  lemma ChunksOfFile(f: File)
    requires Hashed(f) && |FieldsBytes(FileFields(f))| < TWO_63
    ensures ChunksOf(FileFields(f)) == Ok(f.chunks)
  {
    hide FieldsBytes, ChunkBytes, ChunksOf;
    var fs := FileFields(f);
    forall i | 0 <= i < |f.chunks| ensures |ChunkBytes(f.chunks[i])| < TWO_63 {
      FieldWithin(fs, 6 + i);
      assert fs[6 + i] == MkBytes(6, ChunkBytes(f.chunks[i]));
    }
    ChunksRoundTrip(PlainFields(f), f.chunks);
  }

  lemma FileRoundTrip(f: File)
    requires Hashed(f)
    requires |FileBytes(f)| < TWO_63
    ensures ParsedFile(FileBytes(f)) == Ok(f)
  {
    hide FieldsBytes, ReadFields, FileOf, ChunksOf, FileFields, Hashed, NumbersFit;
    FileOfFields(f);
    ChunksOfFile(f);
    DecodeOfEncode(FileFields(f), Lax);
  }

  lemma {:induction false} FilesRoundTrip(fs: seq<File>)
    requires AllHashed(fs)
    requires forall i :: 0 <= i < |fs| ==> |FileBytes(fs[i])| < TWO_63
    ensures FilesOf(NestedFiles(fs)) == Ok(fs)
  {
    hide ParsedFile, FileBytes, Hashed;
    if fs != [] {
      var init := fs[..|fs| - 1];
      assert NestedFiles(fs)[..|fs| - 1] == NestedFiles(init);
      FilesRoundTrip(init);
      FileRoundTrip(fs[|fs| - 1]);
      assert fs == init + [fs[|fs| - 1]];
    }
  }

  lemma PayloadRoundTrip(fs: seq<File>)
    requires AllHashed(fs)
    requires |PayloadBytes(fs)| < TWO_63
    ensures ParsedPayload(PayloadBytes(fs)) == Ok(fs)
  {
    var nested := NestedFiles(fs);
    forall i | 0 <= i < |fs| ensures |FileBytes(fs[i])| < TWO_63 { FieldWithin(nested, i); }
    FilesRoundTrip(fs);
    hide FieldsBytes, FileBytes, ReadFields, FilesOf;
    DecodeOfEncode(nested, Lax);
  }

  lemma DepotOfFields(m: Depot)
    ensures DepotOf(MetadataFields(m), m.files) == m && NumbersFit(MetadataFields(m))
  {
    var fs := MetadataFields(m);
    LastAt(fs, 0); LastAt(fs, 1); LastAt(fs, 2);
    hide Last;
  }

  lemma MetadataRoundTrip(m: Depot)
    requires |MetadataBytes(m)| < TWO_63
    ensures var d := ReadFields(MetadataBytes(m), 0, Lax);
            d.status == Done && DepotOf(d.fields, m.files) == m
  {
    DepotOfFields(m);
    hide ReadFields, FieldsBytes, DepotOf, MetadataFields;
    DecodeOfEncode(MetadataFields(m), Lax);
  }

  /** The manifest round trip: printing any manifest, with any signature, zipping
      it or not, and parsing it, whatever follows, returns the same manifest, in
      order. */
  lemma ManifestRoundTrip(m: Depot, signature: Bytes, tail: Bytes, data: Bytes, unzip: Bytes -> Option<Bytes>)
    requires Printable(m, signature)
    requires unzip(data).GetOr(data) == DepotBytes(m, signature) + tail
    ensures Parsed(data, unzip) == Ok(m)
  {
    PowersOf256();
    LittleEndianInverse(MAGIC_END, 4);
    PayloadRoundTrip(m.files);
    MetadataRoundTrip(m);
    hide Section, SectionOf, PayloadBytes, MetadataBytes, LittleEndian, FromLittleEndian, ReadFields, ParsedPayload, DepotOf;
    var payload, meta := PayloadBytes(m.files), MetadataBytes(m);
    var end := LittleEndian(MAGIC_END, 4) + tail;
    var c := Section(MAGIC_SIGNATURE, signature) + end;
    var b := Section(MAGIC_METADATA, meta) + c;
    FourParts(Section(MAGIC_PAYLOAD, payload), Section(MAGIC_METADATA, meta), Section(MAGIC_SIGNATURE, signature),
              LittleEndian(MAGIC_END, 4), tail);
    SectionRead(MAGIC_PAYLOAD, payload, b);
    SectionRead(MAGIC_METADATA, meta, c);
    SectionRead(MAGIC_SIGNATURE, signature, end);
    assert end[..4] == LittleEndian(MAGIC_END, 4);
  }

  lemma FourParts(a: Bytes, b: Bytes, c: Bytes, d: Bytes, tail: Bytes)
    ensures a + b + c + d + tail == a + (b + (c + (d + tail)))
  {
  }

  // ---------------------------------------------------------------- robustness

  function Join<T>(a: Outcome<seq<T>>, b: Outcome<seq<T>>): Outcome<seq<T>> {
    if !a.Ok? then a else if !b.Ok? then b else Ok(a.value + b.value)
  }

  lemma CollectJoin<T>(a: Outcome<seq<T>>, b: Outcome<seq<T>>, r: Outcome<T>)
    ensures Collect(Join(a, b), r) == Join(a, Collect(b, r))
    ensures a.Ok? ==> Join(a, Ok([])) == a
  {
    if a.Ok? { assert a.value + [] == a.value; }
    if a.Ok? && b.Ok? && r.Ok? { assert a.value + b.value + [r.value] == a.value + (b.value + [r.value]); }
  }

  lemma {:induction false} FilesAppend(a: seq<Field>, b: seq<Field>)
    ensures FilesOf(a + b) == Join(FilesOf(a), FilesOf(b))
    decreases |b|
  {
    hide ParsedFile;
    if b == [] {
      assert a + b == a;
      CollectJoin(FilesOf(a), FilesOf(a), Fail);
    } else {
      assert (a + b)[..|a + b| - 1] == a + b[..|b| - 1];
      FilesAppend(a, b[..|b| - 1]);
      CollectJoin(FilesOf(a), FilesOf(b[..|b| - 1]), ParsedFile(b[|b| - 1].Content()));
    }
  }

  lemma {:induction false} ChunksAppend(a: seq<Field>, b: seq<Field>)
    ensures ChunksOf(a + b) == Join(ChunksOf(a), ChunksOf(b))
    decreases |b|
  {
    hide ParsedChunk;
    if b == [] {
      assert a + b == a;
      CollectJoin(ChunksOf(a), ChunksOf(a), Fail);
    } else {
      assert (a + b)[..|a + b| - 1] == a + b[..|b| - 1];
      ChunksAppend(a, b[..|b| - 1]);
      CollectJoin(ChunksOf(a), ChunksOf(b[..|b| - 1]), ParsedChunk(b[|b| - 1].Content()));
    }
  }

  /** An undecodable mapping anywhere in a payload is dropped, and the mappings
      around it are the ones the payload has without it. */
  lemma BadMappingDropped(a: Bytes, junk: Bytes, b: Bytes)
    requires ParsedFile(junk).Fail?
    requires ReadFields(a, 0, Lax).status.Done? && ReadFields(b, 0, Lax).status.Done?
    requires |a| + |FieldBytes(MkBytes(1, junk))| + |b| < TWO_63
    ensures ParsedPayload(a + FieldBytes(MkBytes(1, junk)) + b) == ParsedPayload(a + b)
            == Join(ParsedPayload(a), ParsedPayload(b))
  {
    var f := MkBytes(1, junk);
    var x, fa, fb := FieldBytes(f), ReadFields(a, 0, Lax).fields, ReadFields(b, 0, Lax).fields;
    FieldsAround(a, f, b);
    hide ReadFields, FieldBytes, ParsedFile;
    FilesAppend(fa + [f], fb);
    FilesAppend(fa, [f]);
    FilesAppend(fa, fb);
    assert [f][..0] == [];
    CollectJoin(FilesOf(fa), FilesOf(fa), Fail);
  }

  /** Entries are bytes fields: a field 1 of a payload, or a field 6 of a mapping,
      of another wire type is none. */
  lemma OtherFieldsIgnored(a: seq<Field>, f: Field, b: seq<Field>)
    ensures f.number != 1 || !f.MkBytes? ==> FilesOf(a + [f] + b) == FilesOf(a + b)
    ensures f.number != 6 || !f.MkBytes? ==> ChunksOf(a + [f] + b) == ChunksOf(a + b)
  {
    hide ParsedFile, ParsedChunk;
    FilesAppend(a + [f], b);
    FilesAppend(a, b);
    ChunksAppend(a + [f], b);
    ChunksAppend(a, b);
    assert (a + [f])[..|a|] == a;
  }

  /** A panic in a mapping is not dropped: it is the outcome of the whole payload,
      whatever comes after. */
  lemma CrashIsFinal(a: Bytes, junk: Bytes, b: Bytes)
    requires ParsedFile(junk).Crash? && ParsedPayload(a).Ok?
    requires ReadFields(a, 0, Lax).status.Done? && ReadFields(b, 0, Lax).status.Done?
    requires |a| + |FieldBytes(MkBytes(1, junk))| + |b| < TWO_63
    ensures ParsedPayload(a + FieldBytes(MkBytes(1, junk)) + b) == Crash
  {
    var f := MkBytes(1, junk);
    var fa, fb := ReadFields(a, 0, Lax).fields, ReadFields(b, 0, Lax).fields;
    FieldsAround(a, f, b);
    OneCrash(junk);
    hide ReadFields, FieldBytes, ParsedFile, FilesOf;
    FilesAppend(fa + [f], fb);
    FilesAppend(fa, [f]);
  }

  lemma OneCrash(junk: Bytes)
    requires ParsedFile(junk).Crash?
    ensures FilesOf([MkBytes(1, junk)]) == Crash
  {
    hide ParsedFile;
    var f := MkBytes(1, junk);
    assert [f][..0] == [] && FilesOf([]) == Ok([]);
  }

  lemma FieldsJoined(a: Bytes, b: Bytes)
    requires ReadFields(a, 0, Lax).status.Done? && ReadFields(b, 0, Lax).status.Done?
    requires |a| + |b| < TWO_63
    ensures ReadFields(a + b, 0, Lax) == Decoded(ReadFields(a, 0, Lax).fields + ReadFields(b, 0, Lax).fields, Done)
  {
    hide ReadFields;
    DecodeAnywhere(b, |a|, 0, Lax);
    DecodeAppend(a, b, 0, Lax);
  }

  lemma FieldAlone(f: Field)
    requires f.number < TWO_61 && |FieldBytes(f)| < TWO_63
    ensures ReadFields(FieldBytes(f), 0, Lax) == Decoded([f], Done)
  {
    assert FieldsBytes([f]) == FieldBytes(f) + FieldsBytes([]) == FieldBytes(f) + [];
    hide ReadFields, FieldBytes, FieldsBytes;
    DecodeOfEncode([f], Lax);
    assert FieldBytes(f) + [] == FieldBytes(f);
  }

  lemma FieldsAround(a: Bytes, f: Field, b: Bytes)
    requires f.number < TWO_61
    requires ReadFields(a, 0, Lax).status.Done? && ReadFields(b, 0, Lax).status.Done?
    requires |a| + |FieldBytes(f)| + |b| < TWO_63
    ensures var fa, fb := ReadFields(a, 0, Lax).fields, ReadFields(b, 0, Lax).fields;
            && ReadFields(a + FieldBytes(f) + b, 0, Lax) == Decoded(fa + [f] + fb, Done)
            && ReadFields(a + b, 0, Lax) == Decoded(fa + fb, Done)
  {
    hide ReadFields, FieldBytes;
    FieldAlone(f);
    FieldsJoined(a, FieldBytes(f));
    FieldsJoined(a + FieldBytes(f), b);
    FieldsJoined(a, b);
  }

  lemma ChunksAround(a: seq<Field>, junk: Bytes, b: seq<Field>)
    requires ParsedChunk(junk).Fail?
    ensures ChunksOf(a + [MkBytes(6, junk)] + b) == ChunksOf(a + b) == Join(ChunksOf(a), ChunksOf(b))
  {
    hide ParsedChunk;
    var f := MkBytes(6, junk);
    ChunksAppend(a + [f], b);
    ChunksAppend(a, [f]);
    ChunksAppend(a, b);
    assert [f][..0] == [];
    CollectJoin(ChunksOf(a), ChunksOf(a), Fail);
  }

  lemma {:induction false} LastAround(a: seq<Field>, f: Field, b: seq<Field>, number: nat)
    requires f.number != number
    ensures Last(a + [f] + b, number) == Last(a + b, number)
    decreases |b|
  {
    if b == [] {
      assert a + [f] + b == a + [f] && a + b == a;
      LastSnoc(a, f, number);
    } else {
      var init, g := b[..|b| - 1], b[|b| - 1];
      assert a + [f] + b == a + [f] + init + [g] && a + b == a + init + [g];
      LastSnoc(a + [f] + init, g, number);
      LastSnoc(a + init, g, number);
      LastAround(a, f, init, number);
    }
  }

  lemma FileAround(a: seq<Field>, f: Field, b: seq<Field>, chunks: seq<Chunk>)
    requires f.number == 6
    ensures FileOf(a + [f] + b, chunks) == FileOf(a + b, chunks)
  {
    hide Last;
    LastAround(a, f, b, 1); LastAround(a, f, b, 2); LastAround(a, f, b, 3);
    LastAround(a, f, b, 4); LastAround(a, f, b, 5); LastAround(a, f, b, 7);
  }

  /** The same one level down: an undecodable chunk, or one without a hash,
      anywhere in a mapping is dropped, and the file is the one the mapping gives
      without it: every other member, and the chunks around it. */
  lemma BadChunkDropped(a: Bytes, junk: Bytes, b: Bytes)
    requires ParsedChunk(junk).Fail?
    requires ReadFields(a, 0, Lax).status.Done? && ReadFields(b, 0, Lax).status.Done?
    requires |a| + |FieldBytes(MkBytes(6, junk))| + |b| < TWO_63
    ensures ParsedFile(a + FieldBytes(MkBytes(6, junk)) + b) == ParsedFile(a + b)
  {
    var f := MkBytes(6, junk);
    FieldsAround(a, f, b);
    hide ReadFields, FieldBytes, ParsedChunk, ChunksOf, FileOf;
    var fa, fb := ReadFields(a, 0, Lax).fields, ReadFields(b, 0, Lax).fields;
    ChunksAround(fa, junk, fb);
    if ChunksOf(fa + fb).Ok? { FileAround(fa, f, fb, ChunksOf(fa + fb).value); }
  }
}
