/**
 The ZIP writer: local headers, content, data descriptors and the central directory, in streaming
 and in accumulating mode, and a reader of the result that knows only the format.
 */
module ZipWriter {
  import opened Bits
  import opened Chunks
  import opened Results

  // ----- Little-endian fields -----

  /** The source's little-endian encoding; what does not fit is dropped. */
  function Le(v: nat, n: nat): (b: seq<Byte>)
    ensures |b| == n
  {
    if n == 0 then [] else [(v % 256) as Byte] + Le(v / 256, n - 1)
  }

  function FieldValue(b: seq<Byte>): nat
  {
    if |b| == 0 then 0 else b[0] + 256 * FieldValue(b[1..])
  }

  function Limit(n: nat): (p: nat)
    ensures p >= 1
  {
    if n == 0 then 1 else 256 * Limit(n - 1)
  }

  /** A field that fits is read back; of one that does not, the low digits are. */
  lemma {:induction false} FieldReads(v: nat, n: nat)
    ensures FieldValue(Le(v, n)) == v % Limit(n)
    ensures v < Limit(n) ==> FieldValue(Le(v, n)) == v
  {
    if n > 0 {
      FieldReads(v / 256, n - 1);
      assert Le(v, n)[1..] == Le(v / 256, n - 1);
      LowDigits(v, Limit(n - 1));
    }
  }

  lemma LowDigits(v: nat, p: nat)
    requires p >= 1
    ensures v % (256 * p) == v % 256 + 256 * (v / 256 % p)
  {
    var q, low := v / 256 / p, v % 256 + 256 * (v / 256 % p);
    DivMod(v / 256, p);
    assert v == 256 * (q * p) + low && q * (256 * p) == 256 * (q * p);
    RestIs(q, low, 256 * p);
  }

  // ----- Records -----

  /** What the caller gives for a file; text fields are already encoded. */
  datatype FileInfo = FileInfo(
    name: seq<Byte>, dir: bool, extra: seq<Byte>, comment: seq<Byte>, utf8: bool, magic: seq<Byte>,
    time: nat, date: nat, madeBy: nat, attributes: nat)

  /** What is known once the content has gone through. */
  datatype Sizes = Sizes(crc32: nat, compressed: nat, uncompressed: nat)

  const NO_SIZES := Sizes(0, 0, 0)

  const LOCAL_FILE_HEADER: seq<Byte> := [0x50, 0x4B, 3, 4]
  const CENTRAL_FILE_HEADER: seq<Byte> := [0x50, 0x4B, 1, 2]
  const CENTRAL_DIRECTORY_END: seq<Byte> := [0x50, 0x4B, 5, 6]
  const DATA_DESCRIPTOR: seq<Byte> := [0x50, 0x4B, 7, 8]

  function Flags(info: FileInfo, streamed: bool): nat
  {
    (if streamed then 8 else 0) + if info.utf8 then 2048 else 0
  }

  /** The part that local headers and directory records share. */
  function CommonRecord(info: FileInfo, streamed: bool, sizes: Sizes): (b: seq<Byte>)
    requires |info.magic| == 2
    ensures |b| == 26
  {
    [10, 0] + Le(Flags(info, streamed), 2) + info.magic + Le(info.time, 2) + Le(info.date, 2) + Le(sizes.crc32, 4)
    + Le(sizes.compressed, 4) + Le(sizes.uncompressed, 4) + Le(|info.name|, 2) + Le(|info.extra|, 2)
  }

  function FileRecord(info: FileInfo, streamed: bool, sizes: Sizes): (b: seq<Byte>)
    requires |info.magic| == 2
    ensures |b| == 30 + |info.name| + |info.extra|
  {
    LOCAL_FILE_HEADER + CommonRecord(info, streamed, sizes) + info.name + info.extra
  }

  function DirRecord(info: FileInfo, streamed: bool, sizes: Sizes, offset: nat): (b: seq<Byte>)
    requires |info.magic| == 2
    ensures |b| == 46 + |info.name| + |info.extra| + |info.comment|
  {
    CENTRAL_FILE_HEADER + Le(info.madeBy, 2) + CommonRecord(info, streamed, sizes) + Le(|info.comment|, 2)
    + [0, 0, 0, 0] + Le(info.attributes, 4) + Le(offset, 4) + info.name + info.extra + info.comment
  }

  function DescriptorRecord(sizes: Sizes): (b: seq<Byte>)
    ensures |b| == 16
  {
    DATA_DESCRIPTOR + Le(sizes.crc32, 4) + Le(sizes.compressed, 4) + Le(sizes.uncompressed, 4)
  }

  function EndRecord(count: nat, dirSize: nat, dirOffset: nat, comment: seq<Byte>): (b: seq<Byte>)
    ensures |b| == 22 + |comment|
  {
    CENTRAL_DIRECTORY_END + [0, 0, 0, 0] + Le(count, 2) + Le(count, 2) + Le(dirSize, 4) + Le(dirOffset, 4)
    + Le(|comment|, 2) + comment
  }

  // ----- What an archive consists of -----

  datatype Entry = Entry(info: FileInfo, sizes: Sizes, content: seq<Byte>)

  predicate Streamed(streamFiles: bool, info: FileInfo)
  {
    streamFiles && !info.dir
  }

  /** Everything that is emitted for one entry. */
  function EntryBytes(e: Entry, streamFiles: bool): seq<Byte>
    requires |e.info.magic| == 2
  {
    if Streamed(streamFiles, e.info) then
      FileRecord(e.info, true, NO_SIZES) + e.content + DescriptorRecord(e.sizes)
    else
      FileRecord(e.info, false, e.sizes) + e.content
  }

  predicate AreEntries(es: seq<Entry>)
  {
    forall i :: 0 <= i < |es| ==> |es[i].info.magic| == 2
  }

  /** The entries one after the other. */
  function Body(es: seq<Entry>, streamFiles: bool): seq<Byte>
    requires AreEntries(es)
  {
    if |es| == 0 then [] else Body(es[..|es| - 1], streamFiles) + EntryBytes(es[|es| - 1], streamFiles)
  }

  /** The directory records, each with the number of bytes before its entry. */
  function Directory(es: seq<Entry>, streamFiles: bool): seq<Byte>
    requires AreEntries(es)
  {
    if |es| == 0 then []
    else Directory(es[..|es| - 1], streamFiles) + DirectoryEntry(es, streamFiles, |es| - 1)
  }

  function DirectoryEntry(es: seq<Entry>, streamFiles: bool, i: nat): seq<Byte>
    requires AreEntries(es) && i < |es|
  {
    DirRecord(es[i].info, Streamed(streamFiles, es[i].info), es[i].sizes, |Body(es[..i], streamFiles)|)
  }

  function Archive(es: seq<Entry>, streamFiles: bool, comment: seq<Byte>): seq<Byte>
    requires AreEntries(es)
  {
    var body, dir := Body(es, streamFiles), Directory(es, streamFiles);
    body + dir + EndRecord(|es|, |dir|, |body|, comment)
  }

  // ----- The writer -----

  /** The source's ZipFileWorker; `emitted` is what it has passed on downstream. */
  class ZipFileWorker {
    const streamFiles: bool
    const zipComment: seq<Byte>
    var bytesWritten: nat
    var accumulate: bool
    var contentBuffer: seq<seq<Byte>>
    var dirRecords: seq<seq<Byte>>
    var currentSourceOffset: nat
    var emitted: seq<Byte>
    ghost var done: seq<Entry>
    ghost var open: Option<FileInfo>
    ghost var content: seq<Byte>

    constructor (streamFiles: bool, comment: seq<Byte>)
      ensures this.streamFiles == streamFiles && zipComment == comment
      ensures Valid() && done == [] && open == None && emitted == []
    {
      this.streamFiles, zipComment := streamFiles, comment;
      bytesWritten, accumulate, contentBuffer, dirRecords, currentSourceOffset := 0, false, [], [], 0;
      emitted, done, open, content := [], [], None, [];
    }

    /** Everything emitted is accounted for, and so are the records to come. */
    ghost predicate Valid()
      reads this
    {
      && AreEntries(done) && bytesWritten == |emitted| && |dirRecords| == |done|
      && (forall i :: 0 <= i < |done| ==> dirRecords[i] == DirectoryEntry(done, streamFiles, i))
      && match open
         case None => emitted == Body(done, streamFiles) && !accumulate && contentBuffer == [] && content == []
         case Some(info) =>
           && |info.magic| == 2 && currentSourceOffset == |Body(done, streamFiles)|
           && if Streamed(streamFiles, info) then
                !accumulate && contentBuffer == []
                && emitted == Body(done, streamFiles) + FileRecord(info, true, NO_SIZES) + content
              else
                accumulate && emitted == Body(done, streamFiles) && Flatten(contentBuffer) == content
    }

    /** The source's push, without regard to what is pushed. */
    method Pass(data: seq<Byte>)
      modifies `contentBuffer, `bytesWritten, `emitted
      ensures contentBuffer == if accumulate then old(contentBuffer) + [data] else old(contentBuffer)
      ensures emitted == if accumulate then old(emitted) else old(emitted) + data
      ensures bytesWritten == if accumulate then old(bytesWritten) else old(bytesWritten) + |data|
    {
      if accumulate {
        contentBuffer := contentBuffer + [data];
      } else {
        bytesWritten := bytesWritten + |data|;
        emitted := emitted + data;
      }
    }

    method OpenedSource(info: FileInfo)
      requires Valid() && open == None && |info.magic| == 2
      modifies this
      ensures Valid() && open == Some(info) && content == [] && done == old(done)
    {
      hide Body, FileRecord, DirectoryEntry, AreEntries, Flatten;
      NoChunks();
      currentSourceOffset := bytesWritten;
      if streamFiles && !info.dir {
        Pass(FileRecord(info, true, NO_SIZES));
      } else {
        accumulate := true;
      }
      open := Some(info);
    }

    /** A chunk of the open entry's content. */
    method Push(data: seq<Byte>)
      requires Valid() && open.Some?
      modifies `contentBuffer, `bytesWritten, `emitted, `content
      ensures Valid() && content == old(content) + data
    {
      hide Body, FileRecord, DirectoryEntry, AreEntries, Flatten;
      FlattenAppend(contentBuffer, data);
      ghost var before, was := emitted, content;
      Pass(data);
      content := content + data;
      Associates(Body(done, streamFiles) + FileRecord(open.value, true, NO_SIZES), was, data);
    }

    /** The source reads the sizes from the same stream information. */
    method ClosedSource(info: FileInfo, sizes: Sizes)
      requires Valid() && open == Some(info)
      modifies this
      ensures Valid() && open == None && done == old(done) + [Entry(info, sizes, old(content))]
    {
      hide Body, FileRecord, DirRecord, DirectoryEntry, AreEntries, Flatten, EntryBytes;
      ghost var before, entry := done, Entry(info, sizes, content);
      ghost var body := Body(done, streamFiles);
      accumulate := false;
      var streamed := streamFiles && !info.dir;
      dirRecords := dirRecords + [DirRecord(info, streamed, sizes, currentSourceOffset)];
      if streamed {
        Pass(DescriptorRecord(sizes));
      } else {
        Pass(FileRecord(info, false, sizes));
        PassBuffer();
      }
      done := done + [entry];
      open, content := None, [];
      EntriesNext(before, entry);
      BodyNext(before, entry, streamFiles);
      DirectoryNext(before, entry, streamFiles);
      EmittedEntry(body, entry, streamFiles);
    }

    /** Empties the content buffer, first chunk first. */
    method PassBuffer()
      requires !accumulate && bytesWritten == |emitted|
      modifies `contentBuffer, `bytesWritten, `emitted
      ensures contentBuffer == [] && bytesWritten == |emitted|
      ensures emitted == old(emitted) + old(Flatten(contentBuffer))
    {
      while |contentBuffer| > 0
        invariant bytesWritten == |emitted|
        invariant emitted + Flatten(contentBuffer) == old(emitted) + old(Flatten(contentBuffer))
        decreases |contentBuffer|
      {
        var chunk := contentBuffer[0];
        Associates(emitted, chunk, Flatten(contentBuffer[1..]));
        contentBuffer := contentBuffer[1..];
        Pass(chunk);
      }
    }

    /** The central directory and the end record. */
    method Flush()
      requires Valid() && open == None
      modifies `contentBuffer, `bytesWritten, `emitted
      ensures emitted == Archive(done, streamFiles, zipComment)
    {
      hide Body, DirectoryEntry, AreEntries, EndRecord;
      var localDirLength := bytesWritten;
      ghost var body := emitted;
      NoDirectory(done, streamFiles);
      for i := 0 to |dirRecords|
        invariant !accumulate && bytesWritten == |emitted|
        invariant AreEntries(done[..i]) && emitted == body + Directory(done[..i], streamFiles)
      {
        DirectoryPrefix(done, streamFiles, i);
        Associates(body, Directory(done[..i], streamFiles), dirRecords[i]);
        Pass(dirRecords[i]);
      }
      assert done[..|done|] == done;
      var centralDirLength := bytesWritten - localDirLength;
      Pass(EndRecord(|dirRecords|, centralDirLength, localDirLength, zipComment));
    }
  }

  lemma Associates(a: seq<Byte>, b: seq<Byte>, c: seq<Byte>)
    ensures (a + b) + c == a + (b + c)
  {
  }

  lemma EntriesNext(es: seq<Entry>, e: Entry)
    requires AreEntries(es) && |e.info.magic| == 2
    ensures AreEntries(es + [e])
  {
  }

  lemma BodyNext(es: seq<Entry>, e: Entry, streamFiles: bool)
    requires AreEntries(es) && |e.info.magic| == 2 && AreEntries(es + [e])
    ensures Body(es + [e], streamFiles) == Body(es, streamFiles) + EntryBytes(e, streamFiles)
  {
    hide EntryBytes;
    assert (es + [e])[..|es|] == es;
  }

  /** A new entry changes no earlier directory record. */
  lemma DirectoryNext(es: seq<Entry>, e: Entry, streamFiles: bool)
    requires AreEntries(es) && |e.info.magic| == 2 && AreEntries(es + [e])
    ensures forall i :: 0 <= i < |es| ==> DirectoryEntry(es + [e], streamFiles, i) == DirectoryEntry(es, streamFiles, i)
    ensures DirectoryEntry(es + [e], streamFiles, |es|)
         == DirRecord(e.info, Streamed(streamFiles, e.info), e.sizes, |Body(es, streamFiles)|)
  {
    hide Body, DirRecord;
    assert (es + [e])[..|es|] == es;
    forall i | 0 <= i < |es|
      ensures DirectoryEntry(es + [e], streamFiles, i) == DirectoryEntry(es, streamFiles, i)
    {
      assert (es + [e])[..i] == es[..i];
    }
  }

  lemma EmittedEntry(body: seq<Byte>, e: Entry, streamFiles: bool)
    requires |e.info.magic| == 2
    ensures Streamed(streamFiles, e.info) ==>
      body + FileRecord(e.info, true, NO_SIZES) + e.content + DescriptorRecord(e.sizes)
      == body + EntryBytes(e, streamFiles)
    ensures !Streamed(streamFiles, e.info) ==>
      body + FileRecord(e.info, false, e.sizes) + e.content == body + EntryBytes(e, streamFiles)
  {
    hide FileRecord, DescriptorRecord;
  }

  lemma NoDirectory(es: seq<Entry>, streamFiles: bool)
    ensures es[..0] == [] && AreEntries(es[..0]) && Directory(es[..0], streamFiles) == []
  {
  }

  lemma DirectoryPrefix(es: seq<Entry>, streamFiles: bool, i: nat)
    requires AreEntries(es) && i < |es|
    ensures AreEntries(es[..i]) && AreEntries(es[..i + 1])
    ensures Directory(es[..i + 1], streamFiles) == Directory(es[..i], streamFiles) + DirectoryEntry(es, streamFiles, i)
  {
    hide Body, DirRecord;
    assert es[..i + 1][..i] == es[..i];
  }

  // ----- Whole archives -----

  /** A file to write: its content arrives in chunks. */
  datatype Source = Source(info: FileInfo, sizes: Sizes, chunks: seq<seq<Byte>>)

  function EntryOf(s: Source): Entry
  {
    Entry(s.info, s.sizes, Flatten(s.chunks))
  }

  function EntriesOf(sources: seq<Source>): (es: seq<Entry>)
    ensures |es| == |sources|
  {
    seq(|sources|, i requires 0 <= i < |sources| => EntryOf(sources[i]))
  }

  /** Any run: each source is opened, pushed chunk by chunk and closed, and then the end is flushed. */
  method WriteArchive(sources: seq<Source>, streamFiles: bool, comment: seq<Byte>) returns (out: seq<Byte>)
    requires AreEntries(EntriesOf(sources))
    ensures out == Archive(EntriesOf(sources), streamFiles, comment)
  {
    hide Archive, Flatten, AreEntries, ZipFileWorker.Valid;
    var worker := new ZipFileWorker(streamFiles, comment);
    ghost var es := EntriesOf(sources);
    for i := 0 to |sources|
      invariant fresh(worker) && worker.streamFiles == streamFiles && worker.zipComment == comment
      invariant worker.Valid() && worker.open == None && worker.done == es[..i]
    {
      var source := sources[i];
      SourceMagic(sources, i);
      worker.OpenedSource(source.info);
      PushAll(worker, source.chunks);
      worker.ClosedSource(source.info, source.sizes);
      assert es[..i + 1] == es[..i] + [es[i]];
    }
    assert es[..|es|] == es;
    worker.Flush();
    out := worker.emitted;
  }

  method PushAll(worker: ZipFileWorker, chunks: seq<seq<Byte>>)
    requires worker.Valid() && worker.open.Some? && worker.content == []
    modifies worker`contentBuffer, worker`bytesWritten, worker`emitted, worker`content
    ensures worker.Valid() && worker.content == Flatten(chunks)
  {
    hide Flatten, ZipFileWorker.Valid;
    NoChunks();
    for k := 0 to |chunks|
      invariant worker.Valid() && worker.content == Flatten(chunks[..k])
    {
      FlattenAppend(chunks[..k], chunks[k]);
      assert chunks[..k + 1] == chunks[..k] + [chunks[k]];
      worker.Push(chunks[k]);
    }
    assert chunks[..|chunks|] == chunks;
  }

  lemma SourceMagic(sources: seq<Source>, i: nat)
    requires AreEntries(EntriesOf(sources)) && i < |sources|
    ensures |sources[i].info.magic| == 2
  {
    assert EntriesOf(sources)[i] == EntryOf(sources[i]);
  }

  // ----- The reader -----

  /** What a local header or a directory record says of a file. */
  datatype Facts = Facts(
    version: nat, streamed: bool, utf8: bool, compression: seq<Byte>, time: nat, date: nat,
    crc32: nat, compressed: nat, uncompressed: nat, nameLength: nat, extraLength: nat)

  /** What is known of a file once its local header and what follows it are read. */
  datatype Local = Local(facts: Facts, name: seq<Byte>, extra: seq<Byte>, content: seq<Byte>, descriptor: Option<Sizes>)

  datatype Found = Found(
    facts: Facts, name: seq<Byte>, extra: seq<Byte>, comment: seq<Byte>, madeBy: nat, attributes: nat, local: Local)

  /** The little-endian number of n bytes at place p. */
  function NumberAt(out: seq<Byte>, p: nat, n: nat): nat
    requires p + n <= |out|
  {
    FieldValue(out[p..p + n])
  }

  predicate SignatureAt(out: seq<Byte>, p: nat, signature: nat)
  {
    p + 4 <= |out| && NumberAt(out, p, 4) == signature
  }

  /** The 26 bytes from place p on; no flags but bit 3 and bit 11 are known. */
  function ReadFacts(out: seq<Byte>, p: nat): Option<Facts>
    requires p + 26 <= |out|
  {
    var flags := NumberAt(out, p + 2, 2);
    var streamed, utf8 := flags / 8 % 2 == 1, flags / 2048 % 2 == 1;
    if flags != (if streamed then 8 else 0) + (if utf8 then 2048 else 0) then None
    else
      Some(Facts(NumberAt(out, p, 2), streamed, utf8, out[p + 4..p + 6], NumberAt(out, p + 6, 2),
        NumberAt(out, p + 8, 2), NumberAt(out, p + 10, 4), NumberAt(out, p + 14, 4), NumberAt(out, p + 18, 4),
        NumberAt(out, p + 22, 2), NumberAt(out, p + 24, 2)))
  }

  /** The data descriptor at place p. */
  function ReadDescriptor(out: seq<Byte>, p: nat): Option<Sizes>
  {
    if p + 16 > |out| || !SignatureAt(out, p, 0x08074B50) then None
    else Some(Sizes(NumberAt(out, p + 4, 4), NumberAt(out, p + 8, 4), NumberAt(out, p + 12, 4)))
  }

  /** The local header at `offset`, `size` bytes of content, and the descriptor if the header announces one. */
  function ReadLocal(out: seq<Byte>, offset: nat, size: nat): Option<Local>
  {
    if offset + 30 > |out| || !SignatureAt(out, offset, 0x04034B50) then None
    else
      match ReadFacts(out, offset + 4)
      case None => None
      case Some(facts) =>
        var extraAt := offset + 30 + facts.nameLength;
        var start := extraAt + facts.extraLength;
        if start + size > |out| then None
        else
          var name, extra := out[offset + 30..extraAt], out[extraAt..start];
          var descriptor := if facts.streamed then ReadDescriptor(out, start + size) else None;
          if facts.streamed && descriptor == None then None
          else Some(Local(facts, name, extra, out[start..start + size], descriptor))
  }

  /** The files of n directory records from place p on. */
  function ReadDirectory(out: seq<Byte>, p: nat, n: nat): Option<seq<Found>>
    decreases n
  {
    if n == 0 then Some([])
    else
      match ReadRecord(out, p)
      case None => None
      case Some((found, next)) =>
        match ReadDirectory(out, next, n - 1)
        case None => None
        case Some(rest) => Some([found] + rest)
  }

  /** The file of the directory record at place p, and the place behind the record. */
  function ReadRecord(out: seq<Byte>, p: nat): Option<(Found, nat)>
  {
    if p + 46 > |out| || !SignatureAt(out, p, 0x02014B50) then None
    else
      match ReadFacts(out, p + 6)
      case None => None
      case Some(facts) =>
        var extraAt := p + 46 + facts.nameLength;
        var commentAt := extraAt + facts.extraLength;
        var next := commentAt + NumberAt(out, p + 32, 2);
        if next > |out| then None
        else
          match ReadLocal(out, NumberAt(out, p + 42, 4), facts.compressed)
          case None => None
          case Some(local) =>
            Some((Found(facts, out[p + 46..extraAt], out[extraAt..commentAt], out[commentAt..next],
              NumberAt(out, p + 4, 2), NumberAt(out, p + 38, 4), local), next))
  }

  /** The files and the comment of an archive whose end record is at place `end`. */
  function ReadArchive(out: seq<Byte>, end: nat): Option<(seq<Found>, seq<Byte>)>
  {
    if end + 22 > |out| || !SignatureAt(out, end, 0x06054B50) then None
    else
      var count, dirSize := NumberAt(out, end + 10, 2), NumberAt(out, end + 12, 4);
      var dirOffset := NumberAt(out, end + 16, 4);
      var commentEnd := end + 22 + NumberAt(out, end + 20, 2);
      if NumberAt(out, end + 8, 2) != count || NumberAt(out, end + 4, 4) != 0 then None
      else if dirOffset + dirSize != end || commentEnd > |out| then None
      else
        match ReadDirectory(out, dirOffset, count)
        case None => None
        case Some(files) => Some((files, out[end + 22..commentEnd]))
  }

  /** The bytes b lie at place p. */
  ghost predicate LiesAt(out: seq<Byte>, p: nat, b: seq<Byte>)
  {
    p + |b| <= |out| && out[p..p + |b|] == b
  }

  lemma PartsLieAt(out: seq<Byte>, p: nat, a: seq<Byte>, b: seq<Byte>)
    requires LiesAt(out, p, a + b)
    ensures LiesAt(out, p, a) && LiesAt(out, p + |a|, b)
  {
    assert a == (a + b)[..|a|] && b == (a + b)[|a|..];
    assert out[p..p + |a + b|][..|a|] == out[p..p + |a|];
    assert out[p..p + |a + b|][|a|..] == out[p + |a|..p + |a| + |b|];
  }

  lemma HasNumber(out: seq<Byte>, p: nat, v: nat, n: nat)
    requires LiesAt(out, p, Le(v, n))
    ensures p + n <= |out| && NumberAt(out, p, n) == v % Limit(n)
    ensures v < Limit(n) ==> NumberAt(out, p, n) == v
  {
    hide Le, FieldValue, Limit;
    FieldReads(v, n);
  }

  const LIMIT_2: nat := 0x1_0000
  const LIMIT_4: nat := 0x1_0000_0000

  lemma Limits()
    ensures Limit(2) == LIMIT_2 && Limit(4) == LIMIT_4
  {
    assert Limit(2) == 65536;
    assert Limit(3) == 256 * 65536;
  }

  /** What can be written without a field being cut off. */
  predicate Representable(e: Entry)
  {
    && |e.info.name| < LIMIT_2 && |e.info.extra| < LIMIT_2 && |e.info.comment| < LIMIT_2
    && e.sizes.compressed == |e.content| < LIMIT_4
  }

  lemma HasBytes(out: seq<Byte>, p: nat, b: seq<Byte>)
    requires LiesAt(out, p, b)
    ensures p + |b| <= |out| && out[p..p + |b|] == b
  {
  }

  lemma HasSignature(out: seq<Byte>, p: nat, b: seq<Byte>, signature: nat)
    requires |b| == 4 && LiesAt(out, p, b) && FieldValue(b) == signature
    ensures SignatureAt(out, p, signature)
  {
  }

  lemma Signatures()
    ensures FieldValue(LOCAL_FILE_HEADER) == 0x04034B50 && FieldValue(CENTRAL_FILE_HEADER) == 0x02014B50
    ensures FieldValue(CENTRAL_DIRECTORY_END) == 0x06054B50 && FieldValue(DATA_DESCRIPTOR) == 0x08074B50
  {
  }

  /** What the records of a file say; a field that is too wide loses its high digits. */
  function FactsOf(info: FileInfo, streamed: bool, sizes: Sizes): Facts
  {
    Facts(10, streamed, info.utf8, info.magic, info.time % LIMIT_2, info.date % LIMIT_2, sizes.crc32 % LIMIT_4,
      sizes.compressed % LIMIT_4, sizes.uncompressed % LIMIT_4, |info.name| % LIMIT_2, |info.extra| % LIMIT_2)
  }

  /** The fields that local header and directory record share are read back. */
  lemma CommonFields(out: seq<Byte>, p: nat, info: FileInfo, streamed: bool, sizes: Sizes)
    requires |info.magic| == 2 && LiesAt(out, p, CommonRecord(info, streamed, sizes))
    ensures p + 26 <= |out| && ReadFacts(out, p) == Some(FactsOf(info, streamed, sizes))
  {
    hide Le, LiesAt, NumberAt;
    Limits();
    var a := [10, 0] + Le(Flags(info, streamed), 2) + info.magic;
    var b := a + Le(info.time, 2) + Le(info.date, 2);
    var c := b + Le(sizes.crc32, 4) + Le(sizes.compressed, 4);
    HasBytes(out, p, CommonRecord(info, streamed, sizes));
    PartsLieAt(out, p, c + Le(sizes.uncompressed, 4) + Le(|info.name|, 2), Le(|info.extra|, 2));
    PartsLieAt(out, p, c + Le(sizes.uncompressed, 4), Le(|info.name|, 2));
    PartsLieAt(out, p, c, Le(sizes.uncompressed, 4));
    PartsLieAt(out, p, b + Le(sizes.crc32, 4), Le(sizes.compressed, 4));
    PartsLieAt(out, p, b, Le(sizes.crc32, 4));
    PartsLieAt(out, p, a + Le(info.time, 2), Le(info.date, 2));
    PartsLieAt(out, p, a, Le(info.time, 2));
    HasNumber(out, p + 24, |info.extra|, 2);
    HasNumber(out, p + 22, |info.name|, 2);
    HasNumber(out, p + 18, sizes.uncompressed, 4);
    HasNumber(out, p + 14, sizes.compressed, 4);
    HasNumber(out, p + 10, sizes.crc32, 4);
    HasNumber(out, p + 8, info.date, 2);
    HasNumber(out, p + 6, info.time, 2);
    HeadFields(out, p, info, streamed);
  }

  lemma HeadFields(out: seq<Byte>, p: nat, info: FileInfo, streamed: bool)
    requires |info.magic| == 2 && LiesAt(out, p, [10, 0] + Le(Flags(info, streamed), 2) + info.magic)
    ensures p + 6 <= |out| && NumberAt(out, p, 2) == 10 && out[p + 4..p + 6] == info.magic
    ensures NumberAt(out, p + 2, 2) == (if streamed then 8 else 0) + if info.utf8 then 2048 else 0
  {
    hide LiesAt, NumberAt, FieldValue;
    Limits();
    var flags := Flags(info, streamed);
    assert Le(10, 2) == [10, 0];
    PartsLieAt(out, p, [10, 0] + Le(flags, 2), info.magic);
    PartsLieAt(out, p, [10, 0], Le(flags, 2));
    HasNumber(out, p, 10, 2);
    HasNumber(out, p + 2, flags, 2);
    HasBytes(out, p + 4, info.magic);
  }

  /** The fields of a directory record, and where its texts lie. */
  lemma DirFields(out: seq<Byte>, p: nat, info: FileInfo, streamed: bool, sizes: Sizes, offset: nat)
    requires |info.magic| == 2 && LiesAt(out, p, DirRecord(info, streamed, sizes, offset))
    ensures p + 46 + |info.name| + |info.extra| + |info.comment| <= |out| && SignatureAt(out, p, 0x02014B50)
    ensures ReadFacts(out, p + 6) == Some(FactsOf(info, streamed, sizes))
    ensures NumberAt(out, p + 4, 2) == info.madeBy % LIMIT_2 && NumberAt(out, p + 38, 4) == info.attributes % LIMIT_4
    ensures NumberAt(out, p + 32, 2) == |info.comment| % LIMIT_2 && NumberAt(out, p + 34, 4) == 0
    ensures NumberAt(out, p + 42, 4) == offset % LIMIT_4
    ensures LiesAt(out, p + 46, info.name) && LiesAt(out, p + 46 + |info.name|, info.extra)
    ensures LiesAt(out, p + 46 + |info.name| + |info.extra|, info.comment)
  {
    hide Le, CommonRecord, LiesAt, NumberAt, ReadFacts, FactsOf, SignatureAt;
    Limits();
    Signatures();
    var a := CENTRAL_FILE_HEADER + Le(info.madeBy, 2) + CommonRecord(info, streamed, sizes);
    var b := a + Le(|info.comment|, 2) + [0, 0, 0, 0];
    var c := b + Le(info.attributes, 4) + Le(offset, 4);
    HasBytes(out, p, DirRecord(info, streamed, sizes, offset));
    PartsLieAt(out, p, c + info.name + info.extra, info.comment);
    PartsLieAt(out, p, c + info.name, info.extra);
    PartsLieAt(out, p, c, info.name);
    PartsLieAt(out, p, b + Le(info.attributes, 4), Le(offset, 4));
    PartsLieAt(out, p, b, Le(info.attributes, 4));
    PartsLieAt(out, p, a + Le(|info.comment|, 2), [0, 0, 0, 0]);
    PartsLieAt(out, p, a, Le(|info.comment|, 2));
    PartsLieAt(out, p, CENTRAL_FILE_HEADER + Le(info.madeBy, 2), CommonRecord(info, streamed, sizes));
    PartsLieAt(out, p, CENTRAL_FILE_HEADER, Le(info.madeBy, 2));
    HasNumber(out, p + 42, offset, 4);
    HasNumber(out, p + 38, info.attributes, 4);
    HasNumber(out, p + 32, |info.comment|, 2);
    HasNumber(out, p + 4, info.madeBy, 2);
    ZeroField(out, p + 34);
    CommonFields(out, p + 6, info, streamed, sizes);
    HasSignature(out, p, CENTRAL_FILE_HEADER, 0x02014B50);
  }

  lemma ZeroField(out: seq<Byte>, p: nat)
    requires LiesAt(out, p, [0, 0, 0, 0])
    ensures p + 4 <= |out| && NumberAt(out, p, 4) == 0
  {
    hide LiesAt, NumberAt;
    assert Le(0, 4) == [0, 0, 0, 0];
    Limits();
    HasNumber(out, p, 0, 4);
  }

  /** The fields of a local header, and where its texts lie. */
  lemma LocalFields(out: seq<Byte>, p: nat, info: FileInfo, streamed: bool, sizes: Sizes)
    requires |info.magic| == 2 && LiesAt(out, p, FileRecord(info, streamed, sizes))
    ensures p + 30 + |info.name| + |info.extra| <= |out| && SignatureAt(out, p, 0x04034B50)
    ensures ReadFacts(out, p + 4) == Some(FactsOf(info, streamed, sizes))
    ensures LiesAt(out, p + 30, info.name) && LiesAt(out, p + 30 + |info.name|, info.extra)
  {
    hide Le, CommonRecord, LiesAt, NumberAt, ReadFacts, FactsOf, SignatureAt;
    Signatures();
    var a := LOCAL_FILE_HEADER + CommonRecord(info, streamed, sizes);
    HasBytes(out, p, FileRecord(info, streamed, sizes));
    PartsLieAt(out, p, a + info.name, info.extra);
    PartsLieAt(out, p, a, info.name);
    PartsLieAt(out, p, LOCAL_FILE_HEADER, CommonRecord(info, streamed, sizes));
    CommonFields(out, p + 4, info, streamed, sizes);
    HasSignature(out, p, LOCAL_FILE_HEADER, 0x04034B50);
  }

  /** Sizes as their fields hold them. */
  function FieldSizes(sizes: Sizes): Sizes
  {
    Sizes(sizes.crc32 % LIMIT_4, sizes.compressed % LIMIT_4, sizes.uncompressed % LIMIT_4)
  }

  /** The fields of a data descriptor. */
  lemma DescriptorFields(out: seq<Byte>, p: nat, sizes: Sizes)
    requires LiesAt(out, p, DescriptorRecord(sizes))
    ensures ReadDescriptor(out, p) == Some(FieldSizes(sizes))
  {
    hide Le, LiesAt, NumberAt, SignatureAt;
    Limits();
    Signatures();
    var a := DATA_DESCRIPTOR + Le(sizes.crc32, 4);
    HasBytes(out, p, DescriptorRecord(sizes));
    PartsLieAt(out, p, a + Le(sizes.compressed, 4), Le(sizes.uncompressed, 4));
    PartsLieAt(out, p, a, Le(sizes.compressed, 4));
    PartsLieAt(out, p, DATA_DESCRIPTOR, Le(sizes.crc32, 4));
    HasNumber(out, p + 12, sizes.uncompressed, 4);
    HasNumber(out, p + 8, sizes.compressed, 4);
    HasNumber(out, p + 4, sizes.crc32, 4);
    HasSignature(out, p, DATA_DESCRIPTOR, 0x08074B50);
  }

  /** What the local header of an entry says, and what follows it: a streamed one has no sizes, but a descriptor. */
  function LocalOf(e: Entry, streamed: bool): Local
  {
    Local(FactsOf(e.info, streamed, if streamed then Sizes(0, 0, 0) else e.sizes), e.info.name, e.info.extra, e.content,
      if streamed then Some(FieldSizes(e.sizes)) else None)
  }

  /** The reader finds the content behind the local header, in either mode, and the descriptor. */
  lemma LocalReads(out: seq<Byte>, p: nat, e: Entry, streamFiles: bool)
    requires |e.info.magic| == 2 && Representable(e) && LiesAt(out, p, EntryBytes(e, streamFiles))
    ensures ReadLocal(out, p, |e.content|) == Some(LocalOf(e, Streamed(streamFiles, e.info)))
  {
    hide FileRecord, DescriptorRecord, NumberAt, SignatureAt, ReadFacts, ReadDescriptor;
    var streamed := Streamed(streamFiles, e.info);
    var sizes := if streamed then NO_SIZES else e.sizes;
    var header := FileRecord(e.info, streamed, sizes);
    if streamed {
      PartsLieAt(out, p, header + e.content, DescriptorRecord(e.sizes));
      DescriptorFields(out, p + |header| + |e.content|, e.sizes);
    }
    PartsLieAt(out, p, header, e.content);
    LocalFields(out, p, e.info, streamed, sizes);
  }

  // ----- Where the parts of an archive lie -----

  lemma {:induction false} BodyHas(out: seq<Byte>, es: seq<Entry>, n: nat, i: nat, streamFiles: bool)
    requires AreEntries(es) && i < n <= |es| && LiesAt(out, 0, Body(es[..n], streamFiles))
    ensures LiesAt(out, |Body(es[..i], streamFiles)|, EntryBytes(es[i], streamFiles))
  {
    hide EntryBytes, LiesAt;
    assert es[..n][..n - 1] == es[..n - 1];
    PartsLieAt(out, 0, Body(es[..n - 1], streamFiles), EntryBytes(es[n - 1], streamFiles));
    if i < n - 1 { BodyHas(out, es, n - 1, i, streamFiles); }
  }

  lemma {:induction false} DirectoryHas(out: seq<Byte>, p: nat, es: seq<Entry>, n: nat, i: nat, streamFiles: bool)
    requires AreEntries(es) && i < n <= |es| && LiesAt(out, p, Directory(es[..n], streamFiles))
    ensures LiesAt(out, p + |Directory(es[..i], streamFiles)|, DirectoryEntry(es, streamFiles, i))
  {
    hide DirectoryEntry, LiesAt, Directory;
    DirectoryPrefix(es, streamFiles, n - 1);
    PartsLieAt(out, p, Directory(es[..n - 1], streamFiles), DirectoryEntry(es, streamFiles, n - 1));
    if i < n - 1 { DirectoryHas(out, p, es, n - 1, i, streamFiles); }
  }

  function FoundOf(e: Entry, streamed: bool): Found
  {
    Found(FactsOf(e.info, streamed, e.sizes), e.info.name, e.info.extra, e.info.comment, e.info.madeBy % LIMIT_2,
      e.info.attributes % LIMIT_4, LocalOf(e, streamed))
  }

  function FoundIn(es: seq<Entry>, streamFiles: bool): seq<Found>
  {
    if |es| == 0 then [] else [FoundOf(es[0], streamFiles && !es[0].info.dir)] + FoundIn(es[1..], streamFiles)
  }

  /** A directory record is read as its entry. */
  lemma RecordReads(out: seq<Byte>, p: nat, e: Entry, streamFiles: bool, offset: nat)
    requires |e.info.magic| == 2 && Representable(e) && |out| <= LIMIT_4
    requires LiesAt(out, p, DirRecord(e.info, Streamed(streamFiles, e.info), e.sizes, offset))
    requires LiesAt(out, offset, EntryBytes(e, streamFiles))
    ensures ReadRecord(out, p)
         == Some((FoundOf(e, Streamed(streamFiles, e.info)),
                  p + 46 + |e.info.name| + |e.info.extra| + |e.info.comment|))
  {
    hide DirRecord, EntryBytes, NumberAt, SignatureAt, ReadFacts, ReadLocal, LocalOf;
    EntryNotEmpty(e, streamFiles);
    DirFields(out, p, e.info, Streamed(streamFiles, e.info), e.sizes, offset);
    LocalReads(out, offset, e, streamFiles);
  }

  lemma DirectoryEntryIs(es: seq<Entry>, streamFiles: bool, i: nat)
    requires AreEntries(es) && i < |es|
    ensures DirectoryEntry(es, streamFiles, i)
         == DirRecord(es[i].info, Streamed(streamFiles, es[i].info), es[i].sizes, |Body(es[..i], streamFiles)|)
  {
  }

  /** The directory records from the i-th on are read as the entries from the i-th on. */
  lemma {:induction false} DirectoryReads(out: seq<Byte>, dir: nat, es: seq<Entry>, i: nat, streamFiles: bool)
    requires AreEntries(es) && i <= |es| && forall k :: 0 <= k < |es| ==> Representable(es[k])
    requires LiesAt(out, 0, Body(es, streamFiles)) && LiesAt(out, dir, Directory(es, streamFiles)) && |out| <= LIMIT_4
    ensures ReadDirectory(out, dir + |Directory(es[..i], streamFiles)|, |es| - i) == Some(FoundIn(es[i..], streamFiles))
    decreases |es| - i
  {
    hide Body, Directory, DirectoryEntry, EntryBytes, DirRecord, LiesAt, ReadRecord, FoundOf, AreEntries, Representable;
    if i < |es| {
      DirectoryPrefix(es, streamFiles, i);
      var e, p, offset := es[i], dir + |Directory(es[..i], streamFiles)|, |Body(es[..i], streamFiles)|;
      assert es[..|es|] == es;
      EntryMagic(es, i);
      DirectoryHas(out, dir, es, |es|, i, streamFiles);
      DirectoryEntryIs(es, streamFiles, i);
      BodyHas(out, es, |es|, i, streamFiles);
      RecordReads(out, p, e, streamFiles, offset);
      DirectoryReads(out, dir, es, i + 1, streamFiles);
      assert es[i..][1..] == es[i + 1..];
    }
  }

  lemma EntryMagic(es: seq<Entry>, i: nat)
    requires AreEntries(es) && i < |es|
    ensures |es[i].info.magic| == 2
  {
  }

  lemma EntryNotEmpty(e: Entry, streamFiles: bool)
    requires |e.info.magic| == 2
    ensures |EntryBytes(e, streamFiles)| >= 30
  {
    hide FileRecord;
  }

  /** The fields of the end record: on one disk only, with both counts, and the comment. */
  lemma EndFields(out: seq<Byte>, p: nat, count: nat, dirSize: nat, dirOffset: nat, comment: seq<Byte>)
    requires LiesAt(out, p, EndRecord(count, dirSize, dirOffset, comment))
    ensures p + 22 + |comment| <= |out| && SignatureAt(out, p, 0x06054B50) && NumberAt(out, p + 4, 4) == 0
    ensures NumberAt(out, p + 8, 2) == NumberAt(out, p + 10, 2) == count % LIMIT_2
    ensures NumberAt(out, p + 12, 4) == dirSize % LIMIT_4 && NumberAt(out, p + 16, 4) == dirOffset % LIMIT_4
    ensures NumberAt(out, p + 20, 2) == |comment| % LIMIT_2 && LiesAt(out, p + 22, comment)
  {
    hide Le, LiesAt, NumberAt, SignatureAt;
    Limits();
    Signatures();
    var a := CENTRAL_DIRECTORY_END + [0, 0, 0, 0];
    var b := a + Le(count, 2) + Le(count, 2);
    HasBytes(out, p, EndRecord(count, dirSize, dirOffset, comment));
    PartsLieAt(out, p, b + Le(dirSize, 4) + Le(dirOffset, 4) + Le(|comment|, 2), comment);
    PartsLieAt(out, p, b + Le(dirSize, 4) + Le(dirOffset, 4), Le(|comment|, 2));
    PartsLieAt(out, p, b + Le(dirSize, 4), Le(dirOffset, 4));
    PartsLieAt(out, p, b, Le(dirSize, 4));
    PartsLieAt(out, p, a + Le(count, 2), Le(count, 2));
    PartsLieAt(out, p, a, Le(count, 2));
    PartsLieAt(out, p, CENTRAL_DIRECTORY_END, [0, 0, 0, 0]);
    HasNumber(out, p + 20, |comment|, 2);
    HasNumber(out, p + 16, dirOffset, 4);
    HasNumber(out, p + 12, dirSize, 4);
    HasNumber(out, p + 10, count, 2);
    HasNumber(out, p + 8, count, 2);
    ZeroField(out, p + 4);
    HasSignature(out, p, CENTRAL_DIRECTORY_END, 0x06054B50);
  }

  /**
   The reader gets every file back from whatever the writer emits, in order: name, content and every
   other field, from the directory and from the local header, and the comment as far as its length fits.
   */
  lemma ArchiveReads(es: seq<Entry>, streamFiles: bool, comment: seq<Byte>)
    requires AreEntries(es) && |es| < LIMIT_2 && forall k :: 0 <= k < |es| ==> Representable(es[k])
    requires |Archive(es, streamFiles, comment)| <= LIMIT_4
    ensures ReadArchive(Archive(es, streamFiles, comment), |Body(es, streamFiles)| + |Directory(es, streamFiles)|)
         == Some((FoundIn(es, streamFiles), comment[..|comment| % LIMIT_2]))
  {
    hide Body, Directory, EndRecord, NumberAt, SignatureAt, ReadDirectory, AreEntries, Representable, FoundIn, LiesAt,
      ReadArchive;
    var body, dir, out := Body(es, streamFiles), Directory(es, streamFiles), Archive(es, streamFiles, comment);
    var end := EndRecord(|es|, |dir|, |body|, comment);
    HasWhole(out);
    PartsLieAt(out, 0, body + dir, end);
    PartsLieAt(out, 0, body, dir);
    EndFields(out, |body| + |dir|, |es|, |dir|, |body|, comment);
    NoDirectory(es, streamFiles);
    DirectoryReads(out, |body|, es, 0, streamFiles);
    assert es[0..] == es;
    PartReads(out, |body| + |dir| + 22, comment, |comment| % LIMIT_2);
    EndReads(out, |body| + |dir|, |body|, |es|, FoundIn(es, streamFiles));
  }

  /** An end record whose fields are consistent leads to the directory. */
  lemma EndReads(out: seq<Byte>, end: nat, dir: nat, count: nat, files: seq<Found>)
    requires end + 22 <= |out| && SignatureAt(out, end, 0x06054B50) && NumberAt(out, end + 4, 4) == 0
    requires NumberAt(out, end + 8, 2) == NumberAt(out, end + 10, 2) == count && dir <= end
    requires NumberAt(out, end + 12, 4) == end - dir && NumberAt(out, end + 16, 4) == dir
    requires end + 22 + NumberAt(out, end + 20, 2) <= |out| && ReadDirectory(out, dir, count) == Some(files)
    ensures ReadArchive(out, end) == Some((files, out[end + 22..end + 22 + NumberAt(out, end + 20, 2)]))
  {
    hide NumberAt, SignatureAt, ReadDirectory;
  }

  lemma PartReads(out: seq<Byte>, p: nat, b: seq<Byte>, n: nat)
    requires LiesAt(out, p, b) && n <= |b|
    ensures p + n <= |out| && out[p..p + n] == b[..n]
  {
    assert b == b[..n] + b[n..];
    PartsLieAt(out, p, b[..n], b[n..]);
  }

  lemma HasWhole(out: seq<Byte>)
    ensures LiesAt(out, 0, out)
  {
  }
}
