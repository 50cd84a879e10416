/**
 The SSHSIG parser: a mutable cursor driven through the fields of a signature blob, nested blobs
 included, and the blob format it reads.
 */
module SigParser {
  import opened Bits
  import opened Results
  import opened SshSig

  datatype Pubkey =
    | Rsa(e: seq<Byte>, n: seq<Byte>)
    | Ed25519(key: seq<Byte>)
    | SkEd25519(key: seq<Byte>, application: string)
    | Ecdsa(algorithm: string, curve: string, point: seq<Byte>)
    | SkEcdsa(curve: string, point: seq<Byte>, application: string)

  datatype Sig = Sig(
    publickey: Pubkey, namespace: string, reserved: seq<Byte>, hashAlgorithm: string,
    sigAlgo: string, rawSignature: seq<Byte>, flags: Option<Byte>, counter: Option<nat>)

  const RSA := "ssh-rsa"
  const ED25519 := "ssh-ed25519"
  const SK_ED25519 := "sk-ssh-ed25519@openssh.com"
  const SK_ECDSA := "sk-ecdsa-sha2-nistp256@openssh.com"
  const NISTP256 := "ecdsa-sha2-nistp256"
  const NISTP384 := "ecdsa-sha2-nistp384"
  const NISTP512 := "ecdsa-sha2-nistp512"
  const NISTP521 := "ecdsa-sha2-nistp521"
  const MAGIC := "SSHSIG"

  // ----- What the parser computes -----

  /** The text of a string field and the place behind it. */
  function TextAt(v: View, pos: nat): Result<(string, nat)>
    requires v.Valid()
  {
    var s :- v.StringAt(pos);
    Ok((Text(s.Content()), pos + 4 + s.len))
  }

  /** The bytes of a string field and the place behind it. */
  function DataAt(v: View, pos: nat): Result<(seq<Byte>, nat)>
    requires v.Valid()
  {
    var s :- v.StringAt(pos);
    Ok((s.Content(), pos + 4 + s.len))
  }

  /** The public key and the place behind it. */
  function PubkeyAt(algorithm: string, v: View, pos: nat): Result<(Pubkey, nat)>
    requires v.Valid()
  {
    if algorithm == RSA then
      var (e, p) :- DataAt(v, pos);
      var (n, q) :- DataAt(v, p);
      Ok((Rsa(e, n), q))
    else if algorithm == ED25519 then
      var (key, p) :- DataAt(v, pos);
      Ok((Ed25519(key), p))
    else if algorithm == SK_ED25519 then
      var (key, p) :- DataAt(v, pos);
      var (application, q) :- TextAt(v, p);
      Ok((SkEd25519(key, application), q))
    else if algorithm == NISTP256 || algorithm == NISTP384 || algorithm == NISTP521 then
      var (curve, p) :- TextAt(v, pos);
      var (point, q) :- DataAt(v, p);
      Ok((Ecdsa(algorithm, curve, point), q))
    else if algorithm == SK_ECDSA then
      var (curve, p) :- TextAt(v, pos);
      var (point, q) :- DataAt(v, p);
      var (application, r) :- TextAt(v, q);
      Ok((SkEcdsa(curve, point, application), r))
    else Err("Unsupported pk_algo")
  }

  /** What the parser makes of a key blob. */
  function PubkeyIn(v: View): Result<(Pubkey, nat)>
    requires v.Valid()
  {
    var (algorithm, p) :- TextAt(v, 0);
    PubkeyAt(algorithm, v, p)
  }

  predicate SplitsSignature(algorithm: string)
  {
    algorithm == NISTP256 || algorithm == NISTP384 || algorithm == NISTP512 || algorithm == SK_ECDSA
  }

  predicate HasCounter(algorithm: string)
  {
    algorithm == SK_ECDSA || algorithm == SK_ED25519
  }

  /** A leading zero byte of a number of odd length is dropped. */
  function Strip(b: seq<Byte>): seq<Byte>
  {
    if |b| > 0 && b[0] == 0 && |b| % 2 == 1 then b[1..] else b
  }

  /** The signature's own bytes and where the cursor ends. */
  function SignatureBytes(algorithm: string, v: View): Result<(seq<Byte>, nat)>
    requires v.Valid()
  {
    if SplitsSignature(algorithm) then
      var (r, p) :- DataAt(v, 0);
      var (s, q) :- DataAt(v, p);
      Ok((Strip(r) + Strip(s), q))
    else Ok((v.Content(), 0))
  }

  function FlagsAndCounter(algorithm: string, v: View, pos: nat): Result<(Option<Byte>, Option<nat>)>
    requires v.Valid()
  {
    if HasCounter(algorithm) then
      var flag :- v.Window(pos, 1);
      var counter :- v.Uint32At(pos + 1);
      Ok((Some(flag.Content()[0]), Some(counter)))
    else Ok((None, None))
  }

  function Parsed(v: View): Result<Sig>
    requires v.Valid()
  {
    var magic :- v.Window(0, 6);
    if Text(magic.Content()) != MAGIC then Err("Expected SSHSIG magic value")
    else
      var version :- v.Uint32At(6);
      if version != 1 then Err("Expected version 1")
      else
        var key :- v.StringAt(10);
        var (publickey, _) :- PubkeyIn(key);
        ParsedTail(v, 14 + key.len, publickey)
  }

  /** The signature blob: algorithm, signature bytes, and the security key's flags and counter. */
  datatype SignatureParts = SignatureParts(
    algorithm: string, bytes: seq<Byte>, flags: Option<Byte>, counter: Option<nat>)

  function SignatureIn(v: View): Result<SignatureParts>
    requires v.Valid()
  {
    var (algorithm, s) :- TextAt(v, 0);
    var raw :- v.StringAt(s);
    var (bytes, _) :- SignatureBytes(algorithm, raw);
    var (flags, counter) :- FlagsAndCounter(algorithm, v, s + 4 + raw.len);
    Ok(SignatureParts(algorithm, bytes, flags, counter))
  }

  datatype Header = Header(namespace: string, reserved: seq<Byte>, hashAlgorithm: string)

  function HeaderAt(v: View, pos: nat): Result<(Header, nat)>
    requires v.Valid()
  {
    var (namespace, p) :- TextAt(v, pos);
    var (reserved, q) :- DataAt(v, p);
    var (hash, r) :- TextAt(v, q);
    Ok((Header(namespace, reserved, hash), r))
  }

  /** What follows the public key. */
  function ParsedTail(v: View, pos: nat, publickey: Pubkey): Result<Sig>
    requires v.Valid()
  {
    var (header, r) :- HeaderAt(v, pos);
    var signature :- v.StringAt(r);
    var parts :- SignatureIn(signature);
    if r + 4 + signature.len != v.len then Err("Signature was parsed but there were still bytes in the stream.")
    else
      Ok(Sig(publickey, header.namespace, header.reserved, header.hashAlgorithm,
        parts.algorithm, parts.bytes, parts.flags, parts.counter))
  }

  // ----- The parser -----

  method ReadText(reader: Reader) returns (r: Result<string>)
    requires reader.view.Valid()
    modifies reader
    ensures match TextAt(reader.view, old(reader.pos))
            case Ok((s, p)) => r == Ok(s) && reader.pos == p
            case Err(e) => r == Err(e)
  {
    var sub :- reader.ReadString();
    var s := sub.ToText();
    r := Ok(s);
  }

  method ReadData(reader: Reader) returns (r: Result<seq<Byte>>)
    requires reader.view.Valid()
    modifies reader
    ensures match DataAt(reader.view, old(reader.pos))
            case Ok((b, p)) => r == Ok(b) && reader.pos == p
            case Err(e) => r == Err(e)
  {
    var sub :- reader.ReadString();
    var b := sub.Bytes();
    r := Ok(b);
  }

  method ParsePubkey(algorithm: string, publickey: Reader) returns (r: Result<Pubkey>)
    requires publickey.view.Valid()
    modifies publickey
    ensures match PubkeyAt(algorithm, publickey.view, old(publickey.pos))
            case Ok((k, p)) => r == Ok(k) && publickey.pos == p
            case Err(e) => r == Err(e)
  {
    hide TextAt, DataAt;
    if algorithm == RSA {
      var e :- ReadData(publickey);
      var n :- ReadData(publickey);
      r := Ok(Rsa(e, n));
    } else if algorithm == ED25519 {
      var key :- ReadData(publickey);
      r := Ok(Ed25519(key));
    } else if algorithm == SK_ED25519 {
      var key :- ReadData(publickey);
      var application :- ReadText(publickey);
      r := Ok(SkEd25519(key, application));
    } else if algorithm == NISTP256 || algorithm == NISTP384 || algorithm == NISTP521 {
      var curve :- ReadText(publickey);
      var point :- ReadData(publickey);
      r := Ok(Ecdsa(algorithm, curve, point));
    } else if algorithm == SK_ECDSA {
      var curve :- ReadText(publickey);
      var point :- ReadData(publickey);
      var application :- ReadText(publickey);
      r := Ok(SkEcdsa(curve, point, application));
    } else {
      r := Err("Unsupported pk_algo");
    }
  }

  method ReadSignatureBytes(algorithm: string, raw: Reader) returns (r: Result<seq<Byte>>)
    requires raw.view.Valid() && raw.pos == 0
    modifies raw
    ensures match SignatureBytes(algorithm, raw.view)
            case Ok((b, p)) => r == Ok(b) && raw.pos == p
            case Err(e) => r == Err(e)
  {
    hide TextAt, DataAt;
    if SplitsSignature(algorithm) {
      var x :- ReadData(raw);
      x := if |x| > 0 && x[0] == 0 && |x| % 2 == 1 then x[1..] else x;
      var y :- ReadData(raw);
      y := if |y| > 0 && y[0] == 0 && |y| % 2 == 1 then y[1..] else y;
      r := Ok(x + y);
    } else {
      var b := raw.Bytes();
      r := Ok(b);
    }
  }

  method ReadFlags(algorithm: string, signature: Reader) returns (r: Result<(Option<Byte>, Option<nat>)>)
    requires signature.view.Valid()
    modifies signature
    ensures r == FlagsAndCounter(algorithm, signature.view, old(signature.pos))
  {
    if HasCounter(algorithm) {
      var flagReader :- signature.ReadBytes(1);
      var flag := flagReader.Bytes();
      var counter :- signature.ReadUint32();
      r := Ok((Some(flag[0]), Some(counter)));
    } else {
      r := Ok((None, None));
    }
  }

  method ParseSignature(rawSignature: Reader) returns (r: Result<SignatureParts>)
    requires rawSignature.view.Valid() && rawSignature.pos == 0
    modifies rawSignature
    ensures r == SignatureIn(rawSignature.view)
  {
    hide TextAt, SignatureBytes, FlagsAndCounter;
    var sigAlgo :- ReadText(rawSignature);
    var sigBytes :- rawSignature.ReadString();
    var bytes :- ReadSignatureBytes(sigAlgo, sigBytes);
    var extra :- ReadFlags(sigAlgo, rawSignature);
    r := Ok(SignatureParts(sigAlgo, bytes, extra.0, extra.1));
  }

  method ParseHeader(reader: Reader) returns (r: Result<Header>)
    requires reader.view.Valid()
    modifies reader
    ensures match HeaderAt(reader.view, old(reader.pos))
            case Ok((h, p)) => r == Ok(h) && reader.pos == p
            case Err(e) => r == Err(e)
  {
    hide TextAt, DataAt;
    var namespace :- ReadText(reader);
    var reserved :- ReadData(reader);
    var hash :- ReadText(reader);
    r := Ok(Header(namespace, reserved, hash));
  }

  method ParseTail(reader: Reader, publickey: Pubkey) returns (r: Result<Sig>)
    requires reader.view.Valid()
    modifies reader
    ensures r == ParsedTail(reader.view, old(reader.pos), publickey)
  {
    hide HeaderAt, SignatureIn, View.StringAt;
    var header :- ParseHeader(reader);
    var rawSignature :- reader.ReadString();
    var parts :- ParseSignature(rawSignature);
    if reader.pos != reader.view.len {
      return Err("Signature was parsed but there were still bytes in the stream.");
    }
    r := Ok(Sig(publickey, header.namespace, header.reserved, header.hashAlgorithm,
      parts.algorithm, parts.bytes, parts.flags, parts.counter));
  }

  /** The source's parse, from a view on. */
  method Parse(view: View) returns (r: Result<Sig>)
    requires view.Valid()
    ensures r == Parsed(view)
  {
    hide TextAt, PubkeyAt, ParsedTail, View.StringAt;
    var reader := new Reader(view);
    var magicReader :- reader.ReadBytes(6);
    var magic := magicReader.ToText();
    if magic != MAGIC {
      return Err("Expected SSHSIG magic value");
    }
    var version :- reader.ReadUint32();
    if version != 1 {
      return Err("Expected version 1");
    }
    var publickey :- reader.ReadString();
    var algorithm :- ReadText(publickey);
    var pubkey :- ParsePubkey(algorithm, publickey);
    r := ParseTail(reader, pubkey);
  }

  // ----- The format -----

  /** The key blob of a public key. */
  function PubkeyBlob(k: Pubkey): seq<Byte>
  {
    match k
    case Rsa(e, n) => Str(CharCodes(RSA)) + Str(e) + Str(n)
    case Ed25519(key) => Str(CharCodes(ED25519)) + Str(key)
    case SkEd25519(key, application) => Str(CharCodes(SK_ED25519)) + Str(key) + Str(CharCodes(application))
    case Ecdsa(algorithm, curve, point) => Str(CharCodes(algorithm)) + Str(CharCodes(curve)) + Str(point)
    case SkEcdsa(curve, point, application) =>
      Str(CharCodes(SK_ECDSA)) + Str(CharCodes(curve)) + Str(point) + Str(CharCodes(application))
  }

  predicate IsPubkey(k: Pubkey)
  {
    match k
    case Rsa(_, _) => true
    case Ed25519(_) => true
    case SkEd25519(_, application) => IsLatin(application)
    case Ecdsa(algorithm, curve, _) =>
      (algorithm == NISTP256 || algorithm == NISTP384 || algorithm == NISTP521) && IsLatin(curve)
    case SkEcdsa(curve, _, application) => IsLatin(curve) && IsLatin(application)
  }

  /** The signatures whose bytes are stored as they are. */
  predicate IsSig(sig: Sig)
  {
    && IsPubkey(sig.publickey) && IsLatin(sig.namespace) && IsLatin(sig.hashAlgorithm) && IsLatin(sig.sigAlgo)
    && !SplitsSignature(sig.sigAlgo)
    && (HasCounter(sig.sigAlgo) <==> sig.flags.Some?) && (HasCounter(sig.sigAlgo) <==> sig.counter.Some?)
    && (sig.counter.Some? ==> sig.counter.value < 0x1_0000_0000)
  }

  function ExtraBlob(sig: Sig): seq<Byte>
    requires IsSig(sig)
  {
    if HasCounter(sig.sigAlgo) then [sig.flags.value] + Uint32(sig.counter.value) else []
  }

  function SignatureBlob(sig: Sig): seq<Byte>
    requires IsSig(sig)
  {
    Str(CharCodes(sig.sigAlgo)) + Str(sig.rawSignature) + ExtraBlob(sig)
  }

  function TailBlob(sig: Sig): seq<Byte>
    requires IsSig(sig)
  {
    Str(CharCodes(sig.namespace)) + Str(sig.reserved) + Str(CharCodes(sig.hashAlgorithm)) + Str(SignatureBlob(sig))
  }

  function Blob(sig: Sig): seq<Byte>
    requires IsSig(sig)
  {
    CharCodes(MAGIC) + Uint32(1) + Str(PubkeyBlob(sig.publickey)) + TailBlob(sig)
  }

  // ----- Reading what the format writes -----

  /** The bytes b lie at place pos of the window, inside it. */
  ghost predicate Has(v: View, pos: nat, b: seq<Byte>)
  {
    v.Valid() && pos + |b| <= v.len && v.buffer[v.off + pos..v.off + pos + |b|] == b
  }

  lemma HasParts(v: View, pos: nat, a: seq<Byte>, b: seq<Byte>)
    requires Has(v, pos, a + b)
    ensures Has(v, pos, a) && Has(v, pos + |a|, b)
  {
    var i, n := v.off + pos, |a| + |b|;
    assert a == (a + b)[..|a|] && b == (a + b)[|a|..];
    assert v.buffer[i..i + n][..|a|] == v.buffer[i..i + |a|];
    assert v.buffer[i..i + n][|a|..] == v.buffer[i + |a|..i + n];
  }

  /** A string field is read back, as a window that holds its bytes. */
  lemma StringReads(v: View, pos: nat, b: seq<Byte>)
    requires Has(v, pos, Str(b)) && |b| < 0x1_0000_0000
    ensures v.StringAt(pos) == Ok(View(v.buffer, v.off + pos + 4, |b|))
    ensures var s := View(v.buffer, v.off + pos + 4, |b|);
            s.Valid() && s.Content() == b && Has(s, 0, b)
  {
    hide Uint32, Uint32Value;
    HasParts(v, pos, Uint32(|b|), b);
    Uint32Reads(|b|);
  }

  lemma TextReads(v: View, pos: nat, s: string)
    requires IsLatin(s) && Has(v, pos, Str(CharCodes(s))) && |s| < 0x1_0000_0000
    ensures TextAt(v, pos) == Ok((s, pos + 4 + |s|))
  {
    hide Has, Str;
    StringReads(v, pos, CharCodes(s));
    TextOfCodes(s);
  }

  lemma DataReads(v: View, pos: nat, b: seq<Byte>)
    requires Has(v, pos, Str(b)) && |b| < 0x1_0000_0000
    ensures DataAt(v, pos) == Ok((b, pos + 4 + |b|))
  {
    hide Has, Str;
    StringReads(v, pos, b);
  }

  lemma SshNames()
    ensures IsLatin(RSA) && IsLatin(ED25519) && IsLatin(MAGIC) && |RSA| == 7 && |ED25519| == 11 && |MAGIC| == 6
  {
  }

  lemma NistNames()
    ensures IsLatin(NISTP256) && IsLatin(NISTP384) && IsLatin(NISTP521)
    ensures |NISTP256| == |NISTP384| == |NISTP521| == 19
  {
  }

  lemma SkEd25519Name()
    ensures IsLatin(SK_ED25519) && |SK_ED25519| == 26
  {
  }

  lemma SkEcdsaName()
    ensures IsLatin(SK_ECDSA) && |SK_ECDSA| == 34
  {
  }

  const SHORT: nat := 0x1_0000_0000

  lemma RsaReads(e: seq<Byte>, n: seq<Byte>, v: View)
    requires Has(v, 0, PubkeyBlob(Rsa(e, n))) && |e| < SHORT && |n| < SHORT
    ensures PubkeyIn(v) == Ok((Rsa(e, n), |PubkeyBlob(Rsa(e, n))|))
  {
    hide Has, Str, TextAt, DataAt, IsLatin, CharCodes;
    SshNames();
    HasParts(v, 0, Str(CharCodes(RSA)) + Str(e), Str(n));
    HasParts(v, 0, Str(CharCodes(RSA)), Str(e));
    TextReads(v, 0, RSA);
    DataReads(v, 11, e);
    DataReads(v, 15 + |e|, n);
  }

  lemma Ed25519Reads(key: seq<Byte>, v: View)
    requires Has(v, 0, PubkeyBlob(Ed25519(key))) && |key| < SHORT
    ensures PubkeyIn(v) == Ok((Ed25519(key), |PubkeyBlob(Ed25519(key))|))
  {
    hide Has, Str, TextAt, DataAt, IsLatin, CharCodes;
    SshNames();
    HasParts(v, 0, Str(CharCodes(ED25519)), Str(key));
    TextReads(v, 0, ED25519);
    DataReads(v, 15, key);
  }

  lemma SkEd25519Reads(key: seq<Byte>, application: string, v: View)
    requires Has(v, 0, PubkeyBlob(SkEd25519(key, application))) && |key| < SHORT
    requires IsLatin(application) && |application| < SHORT
    ensures PubkeyIn(v) == Ok((SkEd25519(key, application), |PubkeyBlob(SkEd25519(key, application))|))
  {
    hide Has, Str, TextAt, DataAt, IsLatin, CharCodes;
    SkEd25519Name();
    var a := CharCodes(application);
    HasParts(v, 0, Str(CharCodes(SK_ED25519)) + Str(key), Str(a));
    HasParts(v, 0, Str(CharCodes(SK_ED25519)), Str(key));
    TextReads(v, 0, SK_ED25519);
    DataReads(v, 30, key);
    TextReads(v, 34 + |key|, application);
  }

  lemma EcdsaReads(algorithm: string, curve: string, point: seq<Byte>, v: View)
    requires algorithm == NISTP256 || algorithm == NISTP384 || algorithm == NISTP521
    requires Has(v, 0, PubkeyBlob(Ecdsa(algorithm, curve, point))) && |point| < SHORT
    requires IsLatin(curve) && |curve| < SHORT
    ensures PubkeyIn(v) == Ok((Ecdsa(algorithm, curve, point), |PubkeyBlob(Ecdsa(algorithm, curve, point))|))
  {
    hide Has, Str, TextAt, DataAt, IsLatin, CharCodes;
    NistNames();
    var a, c := CharCodes(algorithm), CharCodes(curve);
    HasParts(v, 0, Str(a) + Str(c), Str(point));
    HasParts(v, 0, Str(a), Str(c));
    TextReads(v, 0, algorithm);
    TextReads(v, 23, curve);
    DataReads(v, 27 + |curve|, point);
  }

  lemma SkEcdsaReads(curve: string, point: seq<Byte>, application: string, v: View)
    requires Has(v, 0, PubkeyBlob(SkEcdsa(curve, point, application))) && |point| < SHORT
    requires IsLatin(curve) && |curve| < SHORT && IsLatin(application) && |application| < SHORT
    ensures PubkeyIn(v) == Ok((SkEcdsa(curve, point, application), |PubkeyBlob(SkEcdsa(curve, point, application))|))
  {
    hide Has, Str, TextAt, DataAt, IsLatin, CharCodes;
    SkEcdsaName();
    var n, c, a := CharCodes(SK_ECDSA), CharCodes(curve), CharCodes(application);
    HasParts(v, 0, Str(n) + Str(c) + Str(point), Str(a));
    HasParts(v, 0, Str(n) + Str(c), Str(point));
    HasParts(v, 0, Str(n), Str(c));
    TextReads(v, 0, SK_ECDSA);
    TextReads(v, 38, curve);
    DataReads(v, 42 + |curve|, point);
    TextReads(v, 46 + |curve| + |point|, application);
  }

  /** The key blob of every kind of key is read back, to its end. */
  lemma PubkeyReads(k: Pubkey, v: View)
    requires IsPubkey(k) && Has(v, 0, PubkeyBlob(k)) && |PubkeyBlob(k)| < SHORT
    ensures PubkeyIn(v) == Ok((k, |PubkeyBlob(k)|))
  {
    hide Has, Str, IsLatin, PubkeyIn, CharCodes;
    match k
    case Rsa(e, n) => RsaReads(e, n, v);
    case Ed25519(key) => Ed25519Reads(key, v);
    case SkEd25519(key, application) => SkEd25519Reads(key, application, v);
    case Ecdsa(algorithm, curve, point) => EcdsaReads(algorithm, curve, point, v);
    case SkEcdsa(curve, point, application) => SkEcdsaReads(curve, point, application, v);
  }

  lemma SignatureReads(sig: Sig, v: View)
    requires IsSig(sig) && v.Valid() && v.Content() == SignatureBlob(sig) && Has(v, 0, SignatureBlob(sig))
    requires |SignatureBlob(sig)| < SHORT
    ensures SignatureIn(v) == Ok(SignatureParts(sig.sigAlgo, sig.rawSignature, sig.flags, sig.counter))
  {
    hide Has, Str, TextAt, DataAt, IsLatin, CharCodes, FlagsAndCounter, ExtraBlob, SplitsSignature, HasCounter;
    var a, raw, extra := CharCodes(sig.sigAlgo), sig.rawSignature, ExtraBlob(sig);
    var p := 4 + |a|;
    HasParts(v, 0, Str(a) + Str(raw), extra);
    HasParts(v, 0, Str(a), Str(raw));
    TextReads(v, 0, sig.sigAlgo);
    StringReads(v, p, raw);
    ExtraReads(sig, v, p + 4 + |raw|);
  }

  lemma ExtraReads(sig: Sig, v: View, pos: nat)
    requires IsSig(sig) && Has(v, pos, ExtraBlob(sig))
    ensures FlagsAndCounter(sig.sigAlgo, v, pos) == Ok((sig.flags, sig.counter))
  {
    hide HasCounter, SplitsSignature, Uint32Value, Uint32;
    if HasCounter(sig.sigAlgo) {
      var flag, counter := sig.flags.value, sig.counter.value;
      HasParts(v, pos, [flag], Uint32(counter));
      Uint32Reads(counter);
    }
  }

  lemma TailReads(sig: Sig, v: View, pos: nat)
    requires IsSig(sig) && Has(v, pos, TailBlob(sig)) && pos + |TailBlob(sig)| == v.len && |TailBlob(sig)| < SHORT
    ensures ParsedTail(v, pos, sig.publickey) == Ok(sig)
  {
    hide Has, Str, HeaderAt, IsLatin, CharCodes, SignatureBlob, SignatureIn, SplitsSignature, HasCounter, View.StringAt;
    var n, b, h, s := CharCodes(sig.namespace), sig.reserved, CharCodes(sig.hashAlgorithm), SignatureBlob(sig);
    HasParts(v, pos, Str(n) + Str(b) + Str(h), Str(s));
    HeaderReads(sig, v, pos);
    StringReads(v, pos + 12 + |n| + |b| + |h|, s);
    SignatureReads(sig, View(v.buffer, v.off + pos + 16 + |n| + |b| + |h|, |s|));
  }

  lemma HeaderReads(sig: Sig, v: View, pos: nat)
    requires IsLatin(sig.namespace) && IsLatin(sig.hashAlgorithm)
    requires |sig.namespace| < SHORT && |sig.reserved| < SHORT && |sig.hashAlgorithm| < SHORT
    requires Has(v, pos, Str(CharCodes(sig.namespace)) + Str(sig.reserved) + Str(CharCodes(sig.hashAlgorithm)))
    ensures HeaderAt(v, pos)
         == Ok((Header(sig.namespace, sig.reserved, sig.hashAlgorithm),
                pos + 12 + |sig.namespace| + |sig.reserved| + |sig.hashAlgorithm|))
  {
    hide Has, Str, TextAt, DataAt, IsLatin, CharCodes;
    var n, b, h := CharCodes(sig.namespace), sig.reserved, CharCodes(sig.hashAlgorithm);
    HasParts(v, pos, Str(n) + Str(b), Str(h));
    HasParts(v, pos, Str(n), Str(b));
    TextReads(v, pos, sig.namespace);
    DataReads(v, pos + 4 + |n|, b);
    TextReads(v, pos + 8 + |n| + |b|, sig.hashAlgorithm);
  }

  /**
   The parser returns every field of any signature from its blob, wherever the blob lies in a buffer,
   and ends exactly at its end.
   */
  lemma BlobReads(sig: Sig, v: View)
    requires IsSig(sig) && v.Valid() && v.Content() == Blob(sig) && |Blob(sig)| < SHORT
    ensures Parsed(v) == Ok(sig)
  {
    hide Has, Str, IsLatin, CharCodes, PubkeyBlob, TailBlob, PubkeyIn, ParsedTail, Uint32, Uint32Value, IsSig, IsPubkey;
    SshNames();
    SigKey(sig);
    var m, key, tail := CharCodes(MAGIC), PubkeyBlob(sig.publickey), TailBlob(sig);
    HasAll(v);
    HasParts(v, 0, m + Uint32(1) + Str(key), tail);
    HasParts(v, 0, m + Uint32(1), Str(key));
    HasParts(v, 0, m, Uint32(1));
    MagicReads(v);
    Uint32Reads(1);
    NumberReads(v, 6, 1);
    StringReads(v, 10, key);
    PubkeyReads(sig.publickey, View(v.buffer, v.off + 14, |key|));
    TailReads(sig, v, 14 + |key|);
  }

  lemma SigKey(sig: Sig)
    requires IsSig(sig)
    ensures IsPubkey(sig.publickey)
  {
  }

  lemma HasAll(v: View)
    requires v.Valid()
    ensures Has(v, 0, v.Content())
  {
  }

  lemma MagicReads(v: View)
    requires Has(v, 0, CharCodes(MAGIC))
    ensures v.Window(0, 6).Ok? && Text(v.Window(0, 6).value.Content()) == MAGIC
  {
    SshNames();
    TextOfCodes(MAGIC);
  }

  lemma NumberReads(v: View, pos: nat, n: nat)
    requires Has(v, pos, Uint32(n)) && Uint32Value(Uint32(n)) == n
    ensures v.Uint32At(pos) == Ok(n)
  {
    hide Uint32, Uint32Value;
  }

  // ----- Writing the format -----

  function Strings(fields: seq<seq<Byte>>): seq<Byte>
  {
    if |fields| == 0 then [] else Strings(fields[..|fields| - 1]) + Str(fields[|fields| - 1])
  }

  lemma StringsNext(fields: seq<seq<Byte>>, i: nat)
    requires i < |fields|
    ensures Strings(fields[..i + 1]) == Strings(fields[..i]) + Str(fields[i])
  {
    assert fields[..i + 1][..i] == fields[..i];
  }

  lemma {:induction false} StringsGrow(fields: seq<seq<Byte>>, i: nat, n: nat)
    requires i <= n <= |fields|
    ensures |Strings(fields[..i])| <= |Strings(fields[..n])|
  {
    if i < n {
      StringsGrow(fields, i, n - 1);
      StringsNext(fields, n - 1);
    }
  }

  /** Writes the fields as strings; succeeds exactly when they fit. */
  method WriteStrings(writer: Writer, fields: seq<seq<Byte>>) returns (r: Result<()>)
    requires writer.Valid()
    modifies writer
    ensures writer.Valid() && (r.Ok? <==> |old(writer.buffer)| + |Strings(fields)| <= writer.maxByteLength)
    ensures r.Ok? ==> writer.buffer == old(writer.buffer) + Strings(fields)
  {
    hide Str;
    assert fields[..|fields|] == fields;
    NoStrings(fields);
    for i := 0 to |fields|
      invariant writer.Valid() && writer.buffer == old(writer.buffer) + Strings(fields[..i])
    {
      StringsNext(fields, i);
      StringsGrow(fields, i + 1, |fields|);
      r := writer.WriteString(fields[i]);
      if r.Err? {
        return;
      }
      assert old(writer.buffer) + Strings(fields[..i]) + Str(fields[i])
        == old(writer.buffer) + Strings(fields[..i + 1]);
    }
    r := Ok(());
  }

  lemma NoStrings(fields: seq<seq<Byte>>)
    ensures Strings(fields[..0]) == []
  {
  }

  function PubkeyFields(k: Pubkey): seq<seq<Byte>>
  {
    match k
    case Rsa(e, n) => [CharCodes(RSA), e, n]
    case Ed25519(key) => [CharCodes(ED25519), key]
    case SkEd25519(key, application) => [CharCodes(SK_ED25519), key, CharCodes(application)]
    case Ecdsa(algorithm, curve, point) => [CharCodes(algorithm), CharCodes(curve), point]
    case SkEcdsa(curve, point, application) => [CharCodes(SK_ECDSA), CharCodes(curve), point, CharCodes(application)]
  }

  lemma TwoStrings(a: seq<Byte>, b: seq<Byte>)
    ensures Strings([a, b]) == Str(a) + Str(b)
  {
    hide Str;
    assert [a, b][..1] == [a] && [a][..0] == [];
    assert Strings([a]) == [] + Str(a) == Str(a);
  }

  lemma ThreeStrings(a: seq<Byte>, b: seq<Byte>, c: seq<Byte>)
    ensures Strings([a, b, c]) == Str(a) + Str(b) + Str(c)
  {
    hide Str;
    assert [a, b, c][..2] == [a, b];
    TwoStrings(a, b);
  }

  lemma FourStrings(a: seq<Byte>, b: seq<Byte>, c: seq<Byte>, d: seq<Byte>)
    ensures Strings([a, b, c, d]) == Str(a) + Str(b) + Str(c) + Str(d)
  {
    hide Str;
    assert [a, b, c, d][..3] == [a, b, c];
    ThreeStrings(a, b, c);
  }

  lemma FieldsBlob(k: Pubkey)
    ensures Strings(PubkeyFields(k)) == PubkeyBlob(k)
  {
    hide Str, CharCodes, Strings;
    match k
    case Rsa(e, n) => ThreeStrings(CharCodes(RSA), e, n);
    case Ed25519(key) => TwoStrings(CharCodes(ED25519), key);
    case SkEd25519(key, application) => ThreeStrings(CharCodes(SK_ED25519), key, CharCodes(application));
    case Ecdsa(algorithm, curve, point) => ThreeStrings(CharCodes(algorithm), CharCodes(curve), point);
    case SkEcdsa(curve, point, application) =>
      FourStrings(CharCodes(SK_ECDSA), CharCodes(curve), point, CharCodes(application));
  }

  method WriteSignature(sig: Sig, max: nat) returns (r: Result<seq<Byte>>)
    requires IsSig(sig)
    ensures r.Ok? <==> |SignatureBlob(sig)| <= max
    ensures r.Ok? ==> r.value == SignatureBlob(sig)
  {
    hide Str, CharCodes, Strings, IsLatin, IsSig, ExtraBlob;
    var writer := new Writer(max);
    TwoStrings(CharCodes(sig.sigAlgo), sig.rawSignature);
    var _ :- WriteStrings(writer, [CharCodes(sig.sigAlgo), sig.rawSignature]);
    assert writer.buffer == Str(CharCodes(sig.sigAlgo)) + Str(sig.rawSignature);
    var _ :- WriteExtra(writer, sig);
    r := Ok(writer.buffer);
  }

  method WriteExtra(writer: Writer, sig: Sig) returns (r: Result<()>)
    requires IsSig(sig) && writer.Valid()
    modifies writer
    ensures writer.Valid() && (r.Ok? <==> |old(writer.buffer)| + |ExtraBlob(sig)| <= writer.maxByteLength)
    ensures r.Ok? ==> writer.buffer == old(writer.buffer) + ExtraBlob(sig)
  {
    hide IsLatin, IsPubkey, SplitsSignature, HasCounter, Uint32;
    ghost var before := writer.buffer;
    if HasCounter(sig.sigAlgo) {
      var _ :- writer.WriteByte(sig.flags.value);
      var _ :- writer.WriteUint32(sig.counter.value);
      Joined(before, [sig.flags.value], Uint32(sig.counter.value));
    }
    r := Ok(());
  }

  /** A signature blob, written with the writer of the source. */
  method WriteBlob(sig: Sig, max: nat) returns (r: Result<seq<Byte>>)
    requires IsSig(sig)
    ensures r.Ok? <==> |Blob(sig)| <= max
    ensures r.Ok? ==> r.value == Blob(sig)
  {
    hide Str, CharCodes, Strings, IsLatin, IsSig, IsPubkey, PubkeyBlob, SignatureBlob, PubkeyFields, Uint32;
    var keyWriter := new Writer(max);
    var writer := new Writer(max);
    FieldsBlob(sig.publickey);
    BlobLength(sig);
    var _ :- WriteStrings(keyWriter, PubkeyFields(sig.publickey));
    assert keyWriter.buffer == PubkeyBlob(sig.publickey);
    var signature :- WriteSignature(sig, max);
    var _ :- writer.WriteBytes(CharCodes(MAGIC));
    var _ :- writer.WriteUint32(1);
    var fields := [keyWriter.buffer, CharCodes(sig.namespace), sig.reserved, CharCodes(sig.hashAlgorithm), signature];
    FiveStrings(fields);
    ghost var before := writer.buffer;
    var _ :- WriteStrings(writer, fields);
    assert before == CharCodes(MAGIC) + Uint32(1);
    assert TailBlob(sig) == Str(fields[1]) + Str(fields[2]) + Str(fields[3]) + Str(fields[4]);
    Joined(before, Str(fields[0]), TailBlob(sig));
    r := Ok(writer.buffer);
  }

  lemma Joined(a: seq<Byte>, b: seq<Byte>, c: seq<Byte>)
    ensures a + (b + c) == a + b + c
  {
  }

  lemma FiveStrings(fields: seq<seq<Byte>>)
    requires |fields| == 5
    ensures Strings(fields)
         == Str(fields[0]) + (Str(fields[1]) + Str(fields[2]) + Str(fields[3]) + Str(fields[4]))
  {
    hide Str;
    assert fields[..4] == [fields[0], fields[1], fields[2], fields[3]];
    FourStrings(fields[0], fields[1], fields[2], fields[3]);
  }

  lemma BlobLength(sig: Sig)
    requires IsSig(sig)
    ensures |Blob(sig)| == 30 + |PubkeyBlob(sig.publickey)| + |sig.namespace| + |sig.reserved| + |sig.hashAlgorithm|
      + |SignatureBlob(sig)|
  {
    hide PubkeyBlob, SignatureBlob, IsSig, IsLatin;
    SshNames();
  }
}
