/**
 The two numbers of an ECDSA signature: they are stored without leading zero bytes, and the parser
 joins them to a signature of fixed width, except when zero bytes went missing.
 */
module SigNumbers {
  import opened Bits
  import opened Results
  import opened SshSig
  import opened SigParser

  /**
   A number that is given by bytes, the most significant first, as section 5 of RFC 4251 stores it:
   without leading zero bytes, but with one if it would look negative.
   */
  function Mpint(x: seq<Byte>): seq<Byte>
  {
    if |x| == 0 then []
    else if x[0] == 0 then Mpint(x[1..])
    else if x[0] >= 128 then [0] + x
    else x
  }

  lemma {:induction false} MpintLength(x: seq<Byte>)
    ensures |Mpint(x)| <= |x| + 1
    ensures |Mpint(x)| == |x| + 1 <==> |x| > 0 && x[0] >= 128
    ensures |Mpint(x)| > 0 && Mpint(x)[0] == 0 ==> |Mpint(x)| >= 2 && Mpint(x)[1] >= 128
  {
    if |x| > 0 && x[0] == 0 { MpintLength(x[1..]); }
  }

  /**
   The parser's rule for a leading zero byte restores a number of even width exactly if its first
   byte is not zero, or just that byte is and the next one has its top bit set.
   */
  lemma Restores(x: seq<Byte>)
    requires |x| >= 2 && |x| % 2 == 0
    ensures |Strip(Mpint(x))| <= |x|
    ensures Strip(Mpint(x)) == x <==> x[0] != 0 || x[1] >= 128
  {
    if x[0] == 0 {
      MpintLength(x[1..]);
      assert Mpint(x) == Mpint(x[1..]);
      if x[1] >= 128 {
        assert Mpint(x) == [0] + x[1..] == x;
      } else {
        assert |Mpint(x)| < |x|;
      }
    }
  }

  /** Two strings of a signature field are joined, the first one first. */
  lemma SplitReads(algorithm: string, r: seq<Byte>, s: seq<Byte>, v: View)
    requires SplitsSignature(algorithm) && Has(v, 0, Str(r) + Str(s)) && |r| < SHORT && |s| < SHORT
    ensures SignatureBytes(algorithm, v) == Ok((Strip(r) + Strip(s), 8 + |r| + |s|))
  {
    hide Has, Str, Strip, DataAt, SplitsSignature;
    HasParts(v, 0, Str(r), Str(s));
    DataReads(v, 0, r);
    DataReads(v, 4 + |r|, s);
  }

  /** Numbers r and s of one even width are joined to that width exactly if neither lost a zero byte. */
  lemma NumbersJoin(algorithm: string, r: seq<Byte>, s: seq<Byte>, v: View)
    requires SplitsSignature(algorithm) && Has(v, 0, Str(Mpint(r)) + Str(Mpint(s)))
    requires |r| == |s| >= 2 && |r| % 2 == 0 && |r| < SHORT - 1
    ensures SignatureBytes(algorithm, v).Ok?
    ensures SignatureBytes(algorithm, v).value.0 == r + s <==>
      (r[0] != 0 || r[1] >= 128) && (s[0] != 0 || s[1] >= 128)
  {
    hide Has, Str, Strip, SplitsSignature, Mpint;
    MpintLength(r);
    MpintLength(s);
    SplitReads(algorithm, Mpint(r), Mpint(s), v);
    Restores(r);
    Restores(s);
    JoinedParts(Strip(Mpint(r)), Strip(Mpint(s)), r, s);
  }

  /** Parts that are no longer than they should be join to the whole only if they are what they should be. */
  lemma JoinedParts(a: seq<Byte>, b: seq<Byte>, r: seq<Byte>, s: seq<Byte>)
    requires |a| <= |r| && |b| <= |s|
    ensures a + b == r + s <==> a == r && b == s
  {
    if a + b == r + s {
      assert |a| == |r|;
      assert a == (a + b)[..|a|] && b == (a + b)[|a|..];
      assert r == (r + s)[..|a|] && s == (r + s)[|a|..];
    }
  }

  /** A signature field of 32-byte numbers, one of which lost two zero bytes: 62 bytes come out. */
  lemma ShortSignature(v: View)
    requires Has(v, 0, Str(Mpint([0, 0] + seq(30, _ => 1))) + Str(Mpint(seq(32, _ => 1))))
    ensures SignatureBytes(NISTP256, v).Ok? && |SignatureBytes(NISTP256, v).value.0| == 62
  {
    hide Has, Str;
    var ones: seq<Byte> := seq(30, _ => 1);
    var r: seq<Byte> := [0, 0] + ones;
    assert r[1..] == [0] + ones && r[1..][1..] == ones;
    assert Mpint(r) == Mpint(r[1..]) == Mpint(ones) == ones;
    var s: seq<Byte> := seq(32, _ => 1);
    assert Mpint(s) == s;
    SplitReads(NISTP256, ones, s, v);
  }
}
