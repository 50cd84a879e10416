/** The message whose signature an SSHSIG verifier checks, written into a buffer of at most 100 bytes. */
module SignedMessage {
  import opened Bits
  import opened Results
  import opened SshSig
  import opened SigParser

  const FILE := "file"
  const MAX_LENGTH: nat := 100

  function Message(hash: string, digest: seq<Byte>): (m: seq<Byte>)
    ensures |m| == 6 + 8 + 4 + 4 + |hash| + 4 + |digest|
  {
    CharCodes(MAGIC) + Str(CharCodes(FILE)) + Uint32(0) + Str(CharCodes(hash)) + Str(digest)
  }

  /** The name under which the digest of a hash algorithm is computed. */
  function ConvertHash(hash: string): (r: Result<string>)
    ensures r.Ok? <==> hash == "sha256" || hash == "sha512"
  {
    if hash == "sha256" then Ok("SHA-256")
    else if hash == "sha512" then Ok("SHA-512")
    else Err("Unknown hash")
  }

  /** The message for data whose digest is given for each name. */
  method WriteMessage(hash: string, digest: string -> seq<Byte>) returns (r: Result<seq<Byte>>)
    ensures r.Ok? <==> ConvertHash(hash).Ok? && 32 + |digest(ConvertHash(hash).value)| <= MAX_LENGTH
    ensures r.Ok? ==> r.value == Message(hash, digest(ConvertHash(hash).value))
    ensures r.Err? ==>
      r.error == if 22 + |hash| <= MAX_LENGTH && ConvertHash(hash).Err? then "Unknown hash" else RANGE_ERROR
  {
    hide Str, CharCodes, Uint32;
    var writer := new Writer(MAX_LENGTH);
    Lengths();
    var _ := writer.WriteBytes(CharCodes(MAGIC));
    var _ := writer.WriteString(CharCodes(FILE));
    var _ := writer.WriteUint32(0);
    var _ :- writer.WriteString(CharCodes(hash));
    var name :- ConvertHash(hash);
    var _ :- writer.WriteString(digest(name));
    assert [] + CharCodes(MAGIC) == CharCodes(MAGIC);
    r := Ok(writer.buffer);
  }

  /** With digests of 32 and 64 bytes the message is written for both hashes. */
  lemma DigestsFit(hash: string, digest: string -> seq<Byte>)
    requires |digest("SHA-256")| == 32 && |digest("SHA-512")| == 64
    ensures ConvertHash(hash).Ok? ==> |Message(hash, digest(ConvertHash(hash).value))| <= MAX_LENGTH
  {
    hide Str, CharCodes, Uint32, Message;
  }

  lemma Lengths()
    ensures |MAGIC| == 6 && |FILE| == 4
  {
  }

  /** Different hashes or digests give different messages. */
  lemma MessageDetermines(hash: string, digest: seq<Byte>, hash': string, digest': seq<Byte>)
    requires IsLatin(hash) && IsLatin(hash') && |hash| < SHORT && |hash'| < SHORT
    requires |digest| < SHORT && |digest'| < SHORT && Message(hash, digest) == Message(hash', digest')
    ensures hash == hash' && digest == digest'
  {
    hide Str, CharCodes, Uint32, Message, TextAt, DataAt, IsLatin, Has;
    MessageReads(hash, digest);
    MessageReads(hash', digest');
  }

  /**
   The message in the order of the SSHSIG protocol: the magic bytes, then the strings namespace,
   reserved (empty), hash name and digest, and nothing behind them.
   */
  lemma MessageReads(hash: string, digest: seq<Byte>)
    requires IsLatin(hash) && |hash| < SHORT && |digest| < SHORT
    ensures var v := View(Message(hash, digest), 0, |Message(hash, digest)|);
            && v.Valid() && v.Window(0, 6).Ok? && Text(v.Window(0, 6).value.Content()) == "SSHSIG"
            && TextAt(v, 6) == Ok(("file", 14)) && DataAt(v, 14) == Ok(([], 18))
            && TextAt(v, 18) == Ok((hash, 22 + |hash|)) && DataAt(v, 22 + |hash|) == Ok((digest, v.len))
  {
    hide Str, CharCodes, Uint32, TextAt, DataAt, IsLatin, Has;
    var m := Message(hash, digest);
    var v := View(m, 0, |m|);
    Lengths();
    EmptyString();
    var magic, file, reserved := CharCodes(MAGIC), Str(CharCodes(FILE)), Uint32(0);
    var head := magic + file + reserved;
    assert m == v.Content();
    HasAll(v);
    HasParts(v, 0, head + Str(CharCodes(hash)), Str(digest));
    HasParts(v, 0, head, Str(CharCodes(hash)));
    HasParts(v, 0, magic + file, reserved);
    HasParts(v, 0, magic, file);
    MagicReads(v);
    TextReads(v, 6, FILE);
    DataReads(v, 14, []);
    TextReads(v, 18, hash);
    DataReads(v, 22 + |hash|, digest);
  }

  lemma EmptyString()
    ensures Str([]) == Uint32(0) && IsLatin(FILE) && MAGIC == "SSHSIG"
  {
    assert Uint32(0) + [] == Uint32(0);
  }
}
