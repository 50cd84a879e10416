/**
 What the SSHSIG parser reads from outside a window. The source places every nested window on the
 whole buffer, so the last string of a nested blob may run past its blob. Exactly when none does,
 the parser agrees with one whose windows end where they should.
 */
module SigContainment {
  import opened Bits
  import opened Results
  import opened SshSig
  import opened SigParser

  // ----- A buffer cut down -----

  /** The window v on the part of its buffer from lo up to hi. */
  function Cut(v: View, lo: nat, hi: nat): (c: View)
    requires lo <= v.off && v.off + v.len <= hi <= |v.buffer|
    ensures c.Valid() && c.len == v.len && c.off + lo == v.off && |c.buffer| == hi - lo
    ensures c.Content() == v.Content()
  {
    var c := View(v.buffer[lo..hi], v.off - lo, v.len);
    assert c.buffer[c.off..c.off + c.len] == v.buffer[v.off..v.off + v.len];
    c
  }

  ghost predicate Cuts(v: View, lo: nat, hi: nat)
  {
    lo <= v.off && v.off + v.len <= hi <= |v.buffer|
  }

  lemma CutIsAlone(v: View)
    requires v.Valid()
    ensures Cuts(v, v.off, v.off + v.len) && Cut(v, v.off, v.off + v.len) == v.Alone()
  {
  }

  lemma AloneIsContent(v: View, w: View)
    requires v.Valid() && w.Valid() && v.Content() == w.Content()
    ensures v.Alone() == w.Alone()
  {
    assert |v.Content()| == v.len && |w.Content()| == w.len;
  }

  /** A number is read within the window, wherever the buffer ends. */
  lemma CutNumber(v: View, lo: nat, hi: nat, pos: nat)
    requires Cuts(v, lo, hi)
    ensures Cut(v, lo, hi).Uint32At(pos) == v.Uint32At(pos)
  {
    hide Uint32Value;
    var c := Cut(v, lo, hi);
    if pos + 4 <= v.len {
      assert c.buffer[c.off + pos..c.off + pos + 4] == v.buffer[v.off + pos..v.off + pos + 4];
    }
  }

  /** A string is read from the cut buffer exactly if it ends in it, and is then the same. */
  lemma CutString(v: View, lo: nat, hi: nat, pos: nat)
    requires Cuts(v, lo, hi)
    ensures var c := Cut(v, lo, hi);
      && (c.StringAt(pos).Ok? <==> v.StringAt(pos).Ok? && v.off + pos + 4 + v.StringAt(pos).value.len <= hi)
      && (v.StringAt(pos).Ok? ==> v.StringAt(pos).value.off == v.off + pos + 4)
      && (c.StringAt(pos).Ok? ==>
            Cuts(v.StringAt(pos).value, lo, hi) && c.StringAt(pos) == Ok(Cut(v.StringAt(pos).value, lo, hi)))
  {
    hide Uint32Value, View.Uint32At;
    CutNumber(v, lo, hi, pos);
  }

  // ----- Nested blobs in a cut buffer -----

  /** The first is the second, if that ends within the limit. */
  ghost predicate Limited<T>(a: Result<(T, nat)>, b: Result<(T, nat)>, limit: int)
  {
    && (a.Ok? <==> b.Ok? && b.value.1 <= limit)
    && (a.Ok? ==> a == b)
  }

  /** Both kinds of fields are read from the cut buffer exactly if they end in it. */
  ghost predicate FieldsCut(v: View, lo: nat, hi: nat, pos: nat)
    requires Cuts(v, lo, hi)
  {
    && Limited(DataAt(Cut(v, lo, hi), pos), DataAt(v, pos), hi - v.off)
    && Limited(TextAt(Cut(v, lo, hi), pos), TextAt(v, pos), hi - v.off)
    && (DataAt(v, pos).Ok? ==> DataAt(v, pos).value.1 >= pos)
    && (TextAt(v, pos).Ok? ==> TextAt(v, pos).value.1 >= pos)
  }

  lemma CutFields(v: View, lo: nat, hi: nat, pos: nat)
    requires Cuts(v, lo, hi)
    ensures FieldsCut(v, lo, hi, pos)
  {
    hide View.StringAt;
    CutString(v, lo, hi, pos);
  }

  lemma AllFieldsCut(v: View, lo: nat, hi: nat)
    requires Cuts(v, lo, hi)
    ensures forall pos: nat :: FieldsCut(v, lo, hi, pos)
  {
    hide DataAt, TextAt;
    forall pos: nat ensures FieldsCut(v, lo, hi, pos) {
      CutFields(v, lo, hi, pos);
    }
  }

  /** A public key is read from the cut buffer exactly if its last string ends in it. */
  lemma CutPubkey(v: View, lo: nat, hi: nat)
    requires Cuts(v, lo, hi)
    ensures Limited(PubkeyIn(Cut(v, lo, hi)), PubkeyIn(v), hi - v.off)
  {
    hide DataAt, TextAt, PubkeyAt;
    CutFields(v, lo, hi, 0);
    if TextAt(v, 0).Ok? {
      var (algorithm, p) := TextAt(v, 0).value;
      CutPubkeyAt(algorithm, v, lo, hi, p);
    }
  }

  lemma CutPubkeyAt(algorithm: string, v: View, lo: nat, hi: nat, pos: nat)
    requires Cuts(v, lo, hi)
    ensures Limited(PubkeyAt(algorithm, Cut(v, lo, hi), pos), PubkeyAt(algorithm, v, pos), hi - v.off)
    ensures PubkeyAt(algorithm, v, pos).Ok? ==> PubkeyAt(algorithm, v, pos).value.1 >= pos
  {
    hide DataAt, TextAt, Cut;
    AllFieldsCut(v, lo, hi);
    assert FieldsCut(v, lo, hi, pos);
    if DataAt(v, pos).Ok? {
      assert FieldsCut(v, lo, hi, DataAt(v, pos).value.1);
    }
    if TextAt(v, pos).Ok? {
      var q := TextAt(v, pos).value.1;
      assert FieldsCut(v, lo, hi, q);
      if DataAt(v, q).Ok? { assert FieldsCut(v, lo, hi, DataAt(v, q).value.1); }
    }
  }

  lemma CutSignatureBytes(algorithm: string, v: View, lo: nat, hi: nat)
    requires Cuts(v, lo, hi)
    ensures Limited(SignatureBytes(algorithm, Cut(v, lo, hi)), SignatureBytes(algorithm, v), hi - v.off)
  {
    hide DataAt, TextAt, Strip, SplitsSignature;
    CutFields(v, lo, hi, 0);
    if DataAt(v, 0).Ok? {
      CutFields(v, lo, hi, DataAt(v, 0).value.1);
    }
  }

  /** Flags and counter end with a number, so they lie in the window. */
  lemma CutFlags(algorithm: string, v: View, lo: nat, hi: nat, pos: nat)
    requires Cuts(v, lo, hi)
    ensures FlagsAndCounter(algorithm, Cut(v, lo, hi), pos) == FlagsAndCounter(algorithm, v, pos)
  {
    hide HasCounter, View.Uint32At;
    CutNumber(v, lo, hi, pos + 1);
    NumberInWindow(v, pos + 1);
    if pos + 5 <= v.len {
      ByteInWindow(v, pos);
      ByteInWindow(Cut(v, lo, hi), pos);
      assert Cut(v, lo, hi).buffer[Cut(v, lo, hi).off + pos] == v.buffer[v.off + pos];
    }
  }

  lemma ByteInWindow(v: View, pos: nat)
    requires v.Valid() && pos < v.len
    ensures v.Window(pos, 1).Ok? && v.Window(pos, 1).value.Content()[0] == v.buffer[v.off + pos]
  {
  }

  lemma NumberInWindow(v: View, pos: nat)
    requires v.Valid()
    ensures pos + 4 > v.len ==> v.Uint32At(pos) == Err(RANGE_ERROR)
    ensures v.Uint32At(pos).Ok? <==> pos + 4 <= v.len
  {
    hide Uint32Value;
  }

  /** The window of the signature's own bytes, and the algorithm that says how they are read. */
  function RawAt(v: View): (r: Result<(string, View)>)
    requires v.Valid()
    ensures r.Ok? ==> r.value.1.Valid()
  {
    var (algorithm, s) :- TextAt(v, 0);
    var raw :- v.StringAt(s);
    Ok((algorithm, raw))
  }

  /** All that is read of a signature blob ends by hi. */
  ghost predicate SignatureStays(v: View, hi: nat)
    requires v.Valid()
  {
    && SignatureIn(v).Ok?
    && var (algorithm, raw) := RawAt(v).value;
       raw.off + raw.len <= hi && raw.off + SignatureBytes(algorithm, raw).value.1 <= hi
  }

  /** Both levels of strings end in their own window. */
  ghost predicate SignatureFits(v: View)
    requires v.Valid()
  {
    && SignatureIn(v).Ok?
    && var (algorithm, raw) := RawAt(v).value;
       raw.off + raw.len <= v.off + v.len && SignatureBytes(algorithm, raw).value.1 <= raw.len
  }

  lemma CutSignature(v: View, lo: nat, hi: nat)
    requires Cuts(v, lo, hi)
    ensures SignatureIn(Cut(v, lo, hi)).Ok? <==> SignatureStays(v, hi)
    ensures SignatureIn(Cut(v, lo, hi)).Ok? ==> SignatureIn(Cut(v, lo, hi)) == SignatureIn(v)
  {
    hide TextAt, View.StringAt, SignatureBytes, FlagsAndCounter, Cut;
    CutFields(v, lo, hi, 0);
    if TextAt(v, 0).Ok? {
      var (algorithm, s) := TextAt(v, 0).value;
      CutString(v, lo, hi, s);
      if v.StringAt(s).Ok? {
        var raw := v.StringAt(s).value;
        CutFlags(algorithm, v, lo, hi, s + 4 + raw.len);
        if Cuts(raw, lo, hi) { CutSignatureBytes(algorithm, raw, lo, hi); }
      }
    }
  }

  lemma CutHeader(v: View, lo: nat, hi: nat, pos: nat)
    requires Cuts(v, lo, hi)
    ensures Limited(HeaderAt(Cut(v, lo, hi), pos), HeaderAt(v, pos), hi - v.off)
  {
    hide TextAt, DataAt, Cut;
    CutFields(v, lo, hi, pos);
    if TextAt(v, pos).Ok? {
      var p := TextAt(v, pos).value.1;
      CutFields(v, lo, hi, p);
      if DataAt(v, p).Ok? { CutFields(v, lo, hi, DataAt(v, p).value.1); }
    }
  }

  // ----- The whole parse in a cut buffer -----

  /** Magic, version, and the window of the key blob. */
  function KeyWindow(v: View): (r: Result<View>)
    requires v.Valid()
    ensures r.Ok? ==> r.value.Valid()
  {
    var magic :- v.Window(0, 6);
    if Text(magic.Content()) != MAGIC || v.Uint32At(6) != Ok(1) then Err("Expected SSHSIG version 1")
    else v.StringAt(10)
  }

  /** The header and the window of the signature blob, which ends at the end of v. */
  function SignatureWindow(v: View, pos: nat): (r: Result<(Header, View)>)
    requires v.Valid()
    ensures r.Ok? ==> r.value.1.Valid()
  {
    var (header, q) :- HeaderAt(v, pos);
    var signature :- v.StringAt(q);
    if q + 4 + signature.len != v.len then Err("bytes left") else Ok((header, signature))
  }

  function SigFrom(publickey: Pubkey, header: Header, parts: SignatureParts): Sig
  {
    Sig(publickey, header.namespace, header.reserved, header.hashAlgorithm,
      parts.algorithm, parts.bytes, parts.flags, parts.counter)
  }

  function ByWindows(v: View): Result<Sig>
    requires v.Valid()
  {
    var key :- KeyWindow(v);
    var (publickey, _) :- PubkeyIn(key);
    var (header, signature) :- SignatureWindow(v, 14 + key.len);
    var parts :- SignatureIn(signature);
    Ok(SigFrom(publickey, header, parts))
  }

  /** The parse by its two nested windows. */
  lemma ParsedByWindows(v: View, sig: Sig)
    requires v.Valid()
    ensures Parsed(v) == Ok(sig) <==> ByWindows(v) == Ok(sig)
  {
    hide HeaderAt, SignatureIn, PubkeyIn, View.StringAt, View.Uint32At;
  }

  lemma CutKeyWindow(v: View, lo: nat, hi: nat)
    requires Cuts(v, lo, hi)
    ensures var c, k := KeyWindow(Cut(v, lo, hi)), KeyWindow(v);
      && (c.Ok? <==> k.Ok? && k.value.off + k.value.len <= hi)
      && (c.Ok? ==> Cuts(k.value, lo, hi) && c == Ok(Cut(k.value, lo, hi)))
  {
    hide View.StringAt, Uint32Value;
    CutNumber(v, lo, hi, 6);
    CutString(v, lo, hi, 10);
    var c := Cut(v, lo, hi);
    if v.len >= 10 {
      assert c.buffer[c.off..c.off + 6] == v.buffer[v.off..v.off + 6];
    }
  }

  lemma HeaderGrows(v: View, pos: nat)
    requires v.Valid() && HeaderAt(v, pos).Ok?
    ensures HeaderAt(v, pos).value.1 >= pos
  {
    hide View.StringAt;
  }

  lemma CutSignatureWindow(v: View, lo: nat, hi: nat, pos: nat)
    requires Cuts(v, lo, hi)
    ensures var c, w := SignatureWindow(Cut(v, lo, hi), pos), SignatureWindow(v, pos);
      && (c.Ok? <==> w.Ok?)
      && (c.Ok? ==> c.value.0 == w.value.0 && Cuts(w.value.1, lo, hi) && c.value.1 == Cut(w.value.1, lo, hi))
      && (w.Ok? ==> w.value.1.off + w.value.1.len == v.off + v.len && pos <= v.len)
  {
    hide View.StringAt, HeaderAt, Cut;
    CutHeader(v, lo, hi, pos);
    if HeaderAt(v, pos).Ok? {
      HeaderGrows(v, pos);
      CutString(v, lo, hi, HeaderAt(v, pos).value.1);
    }
  }

  /** Nothing that is read of the nested blobs lies behind hi. */
  ghost predicate Stays(v: View, hi: nat)
    requires v.Valid()
  {
    && KeyWindow(v).Ok?
    && var key := KeyWindow(v).value;
       && PubkeyIn(key).Ok? && key.off + PubkeyIn(key).value.1 <= hi
       && SignatureWindow(v, 14 + key.len).Ok?
       && SignatureStays(SignatureWindow(v, 14 + key.len).value.1, hi)
  }

  /**
   A successful parse is the same in a buffer that is cut behind the blob, exactly if nothing that
   was read lies behind the cut.
   */
  lemma CutParse(v: View, lo: nat, hi: nat, sig: Sig)
    requires Cuts(v, lo, hi)
    ensures Parsed(Cut(v, lo, hi)) == Ok(sig) <==> Parsed(v) == Ok(sig) && Stays(v, hi)
  {
    hide KeyWindow, SignatureWindow, PubkeyIn, SignatureIn, SignatureStays, Cut, Parsed;
    var c := Cut(v, lo, hi);
    ParsedByWindows(v, sig);
    ParsedByWindows(c, sig);
    CutKeyWindow(v, lo, hi);
    if KeyWindow(v).Ok? {
      var key := KeyWindow(v).value;
      CutSignatureWindow(v, lo, hi, 14 + key.len);
      KeyPlace(v);
      if Cuts(key, lo, hi) { CutPubkey(key, lo, hi); }
      if SignatureWindow(v, 14 + key.len).Ok? {
        var signature := SignatureWindow(v, 14 + key.len).value.1;
        CutSignature(signature, lo, hi);
        StayedParse(signature, hi);
      }
    }
  }

  lemma KeyPlace(v: View)
    requires v.Valid() && KeyWindow(v).Ok?
    ensures KeyWindow(v).value.off == v.off + 14 && KeyWindow(v).value.buffer == v.buffer
  {
  }

  lemma StayedParse(v: View, hi: nat)
    requires v.Valid()
    ensures SignatureStays(v, hi) ==> SignatureIn(v).Ok?
  {
  }

  // ----- A parser whose windows end where they should -----

  function ConfinedSignature(v: View): Result<SignatureParts>
    requires v.Valid()
  {
    var (algorithm, s) :- TextAt(v.Alone(), 0);
    var raw :- v.Alone().StringAt(s);
    var (bytes, _) :- SignatureBytes(algorithm, raw.Alone());
    var (flags, counter) :- FlagsAndCounter(algorithm, v.Alone(), s + 4 + raw.len);
    Ok(SignatureParts(algorithm, bytes, flags, counter))
  }

  /** Nothing outside its own window can be read from any nested blob. */
  function Confined(v: View): Result<Sig>
    requires v.Valid()
  {
    var key :- KeyWindow(v.Alone());
    var (publickey, _) :- PubkeyIn(key.Alone());
    var (header, signature) :- SignatureWindow(v.Alone(), 14 + key.len);
    var parts :- ConfinedSignature(signature);
    Ok(SigFrom(publickey, header, parts))
  }

  /** Every string of the nested blobs ends in its own window. */
  ghost predicate Fits(v: View)
    requires v.Valid()
  {
    && KeyWindow(v).Ok?
    && var key := KeyWindow(v).value;
       && PubkeyIn(key).Ok? && PubkeyIn(key).value.1 <= key.len
       && SignatureWindow(v, 14 + key.len).Ok?
       && SignatureFits(SignatureWindow(v, 14 + key.len).value.1)
  }

  lemma ConfinedSignatureIff(v: View)
    requires v.Valid()
    ensures ConfinedSignature(v).Ok? <==> SignatureFits(v)
    ensures ConfinedSignature(v).Ok? ==> ConfinedSignature(v) == SignatureIn(v)
  {
    hide TextAt, View.StringAt, SignatureBytes, FlagsAndCounter, Cut, View.Alone;
    var lo, hi := v.off, v.off + v.len;
    CutIsAlone(v);
    CutFields(v, lo, hi, 0);
    if TextAt(v, 0).Ok? {
      var (algorithm, s) := TextAt(v, 0).value;
      CutString(v, lo, hi, s);
      if v.StringAt(s).Ok? {
        var raw := v.StringAt(s).value;
        CutFlags(algorithm, v, lo, hi, s + 4 + raw.len);
        if Cuts(raw, lo, hi) { AloneIsContent(raw, Cut(raw, lo, hi)); }
        CutIsAlone(raw);
        CutSignatureBytes(algorithm, raw, raw.off, raw.off + raw.len);
      }
    }
  }

  /**
   The parser returns what a confined one returns, exactly if every nested string ends in its own
   window; otherwise the confined one refuses.
   */
  lemma ConfinedIff(v: View, sig: Sig)
    requires v.Valid()
    ensures Confined(v) == Ok(sig) <==> Parsed(v) == Ok(sig) && Fits(v)
  {
    hide KeyWindow, SignatureWindow, PubkeyIn, SignatureIn, SignatureFits, ConfinedSignature, Cut, Parsed, View.Alone;
    var lo, hi := v.off, v.off + v.len;
    ParsedByWindows(v, sig);
    CutIsAlone(v);
    CutKeyWindow(v, lo, hi);
    if KeyWindow(v).Ok? {
      var key := KeyWindow(v).value;
      KeyPlace(v);
      CutSignatureWindow(v, lo, hi, 14 + key.len);
      if Cuts(key, lo, hi) { AloneIsContent(key, Cut(key, lo, hi)); }
      CutIsAlone(key);
      CutPubkey(key, key.off, key.off + key.len);
      if SignatureWindow(v, 14 + key.len).Ok? {
        var signature := SignatureWindow(v, 14 + key.len).value.1;
        ConfinedSignatureIff(signature);
        if Cuts(signature, lo, hi) { SameConfined(signature, Cut(signature, lo, hi)); }
        FittingParse(signature);
      }
    }
  }

  lemma SameConfined(v: View, w: View)
    requires v.Valid() && w.Valid() && v.Content() == w.Content()
    ensures ConfinedSignature(v) == ConfinedSignature(w)
  {
    AloneIsContent(v, w);
    hide TextAt, View.StringAt, SignatureBytes, FlagsAndCounter, View.Alone;
  }

  lemma FittingParse(v: View)
    requires v.Valid()
    ensures SignatureFits(v) ==> SignatureIn(v).Ok?
  {
  }

  /** What fits its own windows stays in the whole one. */
  lemma FitsStays(v: View)
    requires v.Valid() && Fits(v)
    ensures Stays(v, v.off + v.len)
  {
    hide KeyWindow, SignatureWindow, PubkeyIn, SignatureIn, RawAt, Cut;
    var key := KeyWindow(v).value;
    KeyPlace(v);
    CutIsAlone(v);
    CutSignatureWindow(v, v.off, v.off + v.len, 14 + key.len);
  }

  /** The result of a parse depends on the bytes of its window alone, exactly if no nested read leaves it. */
  lemma DeterminedIff(v: View, sig: Sig)
    requires v.Valid() && Parsed(v) == Ok(sig)
    ensures Stays(v, v.off + v.len)
      <==> forall w: View :: w.Valid() && w.Content() == v.Content() ==> Parsed(w) == Ok(sig)
  {
    hide Parsed, Stays, View.Alone, Cut;
    CutIsAlone(v);
    CutParse(v, v.off, v.off + v.len, sig);
    forall w: View | w.Valid() && w.Content() == v.Content() && Stays(v, v.off + v.len)
      ensures Parsed(w) == Ok(sig)
    {
      AloneIsContent(v, w);
      CutIsAlone(w);
      CutParse(w, w.off, w.off + w.len, sig);
    }
    assert v.Alone().Content() == v.Content();
  }

  // ----- Blobs -----

  /** A signature blob around any bytes in the place of the key blob. */
  function Frame(sig: Sig, key: seq<Byte>): seq<Byte>
    requires IsSig(sig)
  {
    CharCodes(MAGIC) + Uint32(1) + Str(key) + TailBlob(sig)
  }

  lemma TailWindow(sig: Sig, v: View, pos: nat)
    requires IsSig(sig) && Has(v, pos, TailBlob(sig)) && pos + |TailBlob(sig)| == v.len && |TailBlob(sig)| < SHORT
    ensures SignatureWindow(v, pos).Ok?
    ensures var (header, signature) := SignatureWindow(v, pos).value;
            && header == Header(sig.namespace, sig.reserved, sig.hashAlgorithm)
            && signature.Content() == SignatureBlob(sig)
  {
    hide Has, Str, HeaderAt, IsLatin, CharCodes, SignatureBlob, SplitsSignature, HasCounter, View.StringAt;
    var n, b, h, s := CharCodes(sig.namespace), sig.reserved, CharCodes(sig.hashAlgorithm), SignatureBlob(sig);
    HasParts(v, pos, Str(n) + Str(b) + Str(h), Str(s));
    HeaderReads(sig, v, pos);
    StringReads(v, pos + 12 + |n| + |b| + |h|, s);
  }

  /** The key blob is found, and everything around it is read back and fits. */
  lemma FrameReads(sig: Sig, key: seq<Byte>, v: View)
    requires IsSig(sig) && v.Valid() && v.Content() == Frame(sig, key) && |Frame(sig, key)| < SHORT
    ensures KeyWindow(v) == Ok(View(v.buffer, v.off + 14, |key|))
    ensures KeyWindow(v).value.Content() == key
    ensures SignatureWindow(v, 14 + |key|).Ok?
    ensures var (header, signature) := SignatureWindow(v, 14 + |key|).value;
            && header == Header(sig.namespace, sig.reserved, sig.hashAlgorithm)
            && signature.Valid() && signature.Content() == SignatureBlob(sig)
  {
    hide Has, Str, IsLatin, CharCodes, SignatureBlob, HeaderAt, Uint32, Uint32Value, SplitsSignature, HasCounter,
      View.StringAt;
    SshNames();
    var m, tail := CharCodes(MAGIC), TailBlob(sig);
    HasAll(v);
    HasParts(v, 0, m + Uint32(1) + Str(key), tail);
    HasParts(v, 0, m + Uint32(1), Str(key));
    HasParts(v, 0, m, Uint32(1));
    MagicReads(v);
    Uint32Reads(1);
    NumberReads(v, 6, 1);
    StringReads(v, 10, key);
    TailWindow(sig, v, 14 + |key|);
  }

  lemma SignatureBlobFits(sig: Sig, v: View)
    requires IsSig(sig) && v.Valid() && v.Content() == SignatureBlob(sig) && |SignatureBlob(sig)| < SHORT
    ensures SignatureIn(v) == Ok(SignatureParts(sig.sigAlgo, sig.rawSignature, sig.flags, sig.counter))
    ensures SignatureFits(v)
  {
    hide Has, Str, TextAt, IsLatin, CharCodes, HasCounter, FlagsAndCounter, ExtraBlob, SplitsSignature, View.StringAt;
    HasAll(v);
    SignatureReads(sig, v);
    var a, raw := CharCodes(sig.sigAlgo), sig.rawSignature;
    HasParts(v, 0, Str(a) + Str(raw), ExtraBlob(sig));
    HasParts(v, 0, Str(a), Str(raw));
    TextReads(v, 0, sig.sigAlgo);
    StringReads(v, 4 + |a|, raw);
  }

  /** What the writer of signature blobs writes is parsed without leaving any window. */
  lemma BlobFits(sig: Sig, v: View)
    requires IsSig(sig) && v.Valid() && v.Content() == Blob(sig) && |Blob(sig)| < SHORT
    ensures Confined(v) == Parsed(v) == Ok(sig)
  {
    hide Has, Str, IsLatin, CharCodes, PubkeyBlob, TailBlob, Uint32, SignatureFits, KeyWindow, SignatureWindow,
      PubkeyIn, Parsed, Confined, SignatureBlob, IsPubkey;
    var key := PubkeyBlob(sig.publickey);
    assert Blob(sig) == Frame(sig, key);
    SigKey(sig);
    FrameReads(sig, key, v);
    var k := View(v.buffer, v.off + 14, |key|);
    HasAll(k);
    PubkeyReads(sig.publickey, k);
    PartsShort(sig);
    SignatureBlobFits(sig, SignatureWindow(v, 14 + |key|).value.1);
    BlobReads(sig, v);
    ConfinedIff(v, sig);
  }

  lemma PartsShort(sig: Sig)
    requires IsSig(sig)
    ensures |SignatureBlob(sig)| <= |TailBlob(sig)|
  {
    hide SignatureBlob;
  }

  /** A key blob that ends where the key itself should begin. */
  lemma LongKey(k: View, n: nat)
    requires k.Valid() && k.Content() == Str(CharCodes(ED25519)) + Uint32(n) && k.len == 19 && n < SHORT
    requires k.off + 19 + n <= |k.buffer|
    ensures PubkeyIn(k) == Ok((Ed25519(k.buffer[k.off + 19..k.off + 19 + n]), 19 + n))
  {
    hide Has, Str, IsLatin, CharCodes, Uint32, Uint32Value, TextAt, View.Uint32At;
    SshNames();
    HasAll(k);
    HasParts(k, 0, Str(CharCodes(ED25519)), Uint32(n));
    TextReads(k, 0, ED25519);
    Uint32Reads(n);
    NumberReads(k, 15, n);
  }

  lemma RefusedUnlessFits(v: View)
    requires v.Valid() && KeyWindow(v).Ok? && PubkeyIn(KeyWindow(v).value).Ok?
    ensures PubkeyIn(KeyWindow(v).value).value.1 > KeyWindow(v).value.len ==> Confined(v).Err?
  {
    hide KeyWindow, SignatureWindow, PubkeyIn, Parsed, Confined, SignatureFits;
    if Confined(v).Ok? { ConfinedIff(v, Confined(v).value); }
  }

  lemma RefusedUnlessStays(v: View)
    requires v.Valid() && KeyWindow(v).Ok? && PubkeyIn(KeyWindow(v).value).Ok?
    ensures KeyWindow(v).value.off + PubkeyIn(KeyWindow(v).value).value.1 > v.off + v.len ==> Parsed(v.Alone()).Err?
  {
    hide KeyWindow, SignatureWindow, PubkeyIn, Parsed, SignatureStays, Cut, View.Alone;
    CutIsAlone(v);
    if Parsed(v.Alone()).Ok? { CutParse(v, v.off, v.off + v.len, Parsed(v.Alone()).value); }
  }

  /**
   A key blob whose last string is said to be n bytes long but has none. The parse succeeds, and the
   key is made of bytes from behind its window: of the other fields, and even from behind the blob.
   */
  lemma EscapedKey(sig: Sig, n: nat, suffix: seq<Byte>)
    requires IsSig(sig) && n <= |TailBlob(sig)| + |suffix| && n < SHORT && |TailBlob(sig)| + 33 < SHORT
    ensures var blob := Frame(sig, Str(CharCodes(ED25519)) + Uint32(n));
            var v := View(blob + suffix, 0, |blob|);
            && v.Valid() && Parsed(v) == Ok(sig.(publickey := Ed25519((TailBlob(sig) + suffix)[..n])))
            && (n > 0 ==> Confined(v).Err?)
            && (n > |TailBlob(sig)| ==> Parsed(v.Alone()).Err?)
  {
    hide Has, Str, IsLatin, CharCodes, TailBlob, Uint32, SignatureFits, KeyWindow, SignatureWindow, PubkeyIn, Parsed,
      Confined, SignatureBlob, SignatureIn, SplitsSignature, HasCounter;
    var key, tail := Str(CharCodes(ED25519)) + Uint32(n), TailBlob(sig);
    var blob := Frame(sig, key);
    var v, wanted := View(blob + suffix, 0, |blob|), sig.(publickey := Ed25519((tail + suffix)[..n]));
    SshNames();
    assert v.Content() == blob;
    FrameReads(sig, key, v);
    PartsShort(sig);
    SignatureBlobFits(sig, SignatureWindow(v, 33).value.1);
    var k := View(v.buffer, 14, 19);
    LongKey(k, n);
    assert v.buffer[33..33 + n] == (tail + suffix)[..n];
    ParsedByWindows(v, wanted);
    RefusedUnlessFits(v);
    RefusedUnlessStays(v);
  }
}