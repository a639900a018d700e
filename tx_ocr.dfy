/** The strings assembled to sign a table-recognition request with the TC3-HMAC-SHA256
    scheme: lowercase hex encoding of raw bytes and of digests, the canonical
    request, the string to sign, the signing-key chain and the Authorization
    header value. SHA-256 and HMAC-SHA256 themselves are passed in as functions. */
module TxSign {
  import opened Util
  import opened Text

  type Byte = b: int | 0 <= b < 256

  /** A SHA-256 or HMAC-SHA256 output: 32 bytes. */
  type Digest = d: seq<Byte> | |d| == 32 witness seq(32, _ => 0)

  /** The lookup table of hex digits. */
  const Lut: string := "0123456789abcdef"

  /** The byte a `char` of a `std::string` holds, read as `unsigned char`. */
  function ByteOf(c: char): Byte
  {
    c as int % 256
  }

  function Bytes(s: string): (bs: seq<Byte>)
    ensures |bs| == |s| && forall i :: 0 <= i < |s| ==> bs[i] == ByteOf(s[i])
  {
    seq(|s|, i requires 0 <= i < |s| => ByteOf(s[i]))
  }

  /** Raw bytes stored one per `char`, as the HMAC result is written into a string. */
  function RawText(d: seq<Byte>): (s: string)
    ensures |s| == |d| && Bytes(s) == d
  {
    var s := seq(|d|, i requires 0 <= i < |d| => d[i] as char);
    assert Bytes(s) == d by {
      forall i | 0 <= i < |d| ensures Bytes(s)[i] == d[i] {
        assert s[i] as int == d[i];
      }
    }
    s
  }

  predicate IsHexDigit(c: char)
  {
    '0' <= c <= '9' || 'a' <= c <= 'f'
  }

  predicate AllHex(s: string)
  {
    forall i :: 0 <= i < |s| ==> IsHexDigit(s[i])
  }

  /** The value of a lowercase hex digit; the table entry at that value is the digit. */
  function HexValue(c: char): (v: int)
    requires IsHexDigit(c)
    ensures 0 <= v < 16
  {
    if c <= '9' then c as int - '0' as int else c as int - 'a' as int + 10
  }

  /** Every table entry is a hex digit whose value is its position. */
  lemma LutDigit(v: int)
    requires 0 <= v < 16
    ensures IsHexDigit(Lut[v]) && HexValue(Lut[v]) == v
  {
    if v < 8 {
      if v < 4 {
        assert v == 0 || v == 1 || v == 2 || v == 3;
      } else {
        assert v == 4 || v == 5 || v == 6 || v == 7;
      }
    } else if v < 12 {
      assert v == 8 || v == 9 || v == 10 || v == 11;
    } else {
      assert v == 12 || v == 13 || v == 14 || v == 15;
    }
  }

  /** The two digits of one byte: high nibble, then low nibble. */
  function HexPair(b: Byte): (s: string)
    ensures |s| == 2 && AllHex(s)
    ensures HexValue(s[0]) * 16 + HexValue(s[1]) == b
  {
    LutDigit(b / 16);
    LutDigit(b % 16);
    [Lut[b / 16], Lut[b % 16]]
  }

  /** The lowercase base16 encoding of a byte sequence: two digits per byte, in order. */
  function HexOfBytes(bs: seq<Byte>): (h: string)
    ensures |h| == 2 * |bs| && AllHex(h)
    ensures forall i :: 0 <= i < |bs| ==> h[2 * i..2 * i + 2] == HexPair(bs[i])
  {
    if bs == [] then [] else
      var n := |bs| - 1;
      var prev := HexOfBytes(bs[..n]);
      var pair := HexPair(bs[n]);
      AppendPair(prev, pair);
      assert forall i :: 0 <= i < n ==> bs[..n][i] == bs[i];
      prev + pair
  }

  /** Appending a digit pair keeps the earlier slices and the digits all hex. */
  lemma AppendPair(prev: string, pair: string)
    requires AllHex(prev) && AllHex(pair) && |pair| == 2
    ensures AllHex(prev + pair) && (prev + pair)[|prev|..|prev| + 2] == pair
    ensures forall a, b :: 0 <= a <= b <= |prev| ==> (prev + pair)[a..b] == prev[a..b]
  {
  }

  /** Reads consecutive digit pairs back as bytes. */
  function HexDecode(h: string): (bs: seq<Byte>)
    requires |h| % 2 == 0 && AllHex(h)
    ensures |bs| == |h| / 2
  {
    seq(|h| / 2, i requires 0 <= i < |h| / 2 => HexValue(h[2 * i]) * 16 + HexValue(h[2 * i + 1]))
  }

  /** Decoding the encoding gives back the bytes. */
  lemma HexRoundTrip(bs: seq<Byte>)
    ensures HexDecode(HexOfBytes(bs)) == bs
  {
    var h := HexOfBytes(bs);
    var d := HexDecode(h);
    forall i | 0 <= i < |bs| ensures d[i] == bs[i] {
      PairDecodes(h, i, bs[i]);
    }
  }

  /** A byte's digit pair at position 2i reads back as that byte. */
  lemma PairDecodes(h: string, i: int, b: Byte)
    requires 0 <= i && 2 * i + 2 <= |h| && h[2 * i..2 * i + 2] == HexPair(b)
    ensures HexValue(h[2 * i]) * 16 + HexValue(h[2 * i + 1]) == b
  {
    var pair := HexPair(b);
    assert h[2 * i] == pair[0] && h[2 * i + 1] == pair[1];
  }

  /** Different byte sequences have different encodings. */
  lemma HexInjective(a: seq<Byte>, b: seq<Byte>)
    requires HexOfBytes(a) == HexOfBytes(b)
    ensures a == b
  {
    HexRoundTrip(a);
    HexRoundTrip(b);
  }

  /** Appending one byte appends its two digits. */
  lemma HexOfBytesSnoc(bs: seq<Byte>, b: Byte)
    ensures HexOfBytes(bs + [b]) == HexOfBytes(bs) + HexPair(b)
  {
    assert (bs + [b])[..|bs|] == bs;
  }

  /** The hex text of a string's bytes, one pair of digits per byte. */
  method HexEncode(input: string) returns (output: string)
    ensures output == HexOfBytes(Bytes(input))
  {
    ghost var bs := Bytes(input);
    output := "";
    var i := 0;
    while i < |input|
      invariant 0 <= i <= |input| == |bs|
      invariant output == HexOfBytes(bs[..i])
    {
      var c := ByteOf(input[i]);
      HexOfBytesPrefix(bs, i);
      output := output + [Lut[c / 16], Lut[c % 16]];
      i := i + 1;
    }
    assert bs[..i] == bs;
  }

  /** The encoding of one more byte of a prefix. */
  lemma HexOfBytesPrefix(bs: seq<Byte>, i: int)
    requires 0 <= i < |bs|
    ensures HexOfBytes(bs[..i + 1]) == HexOfBytes(bs[..i]) + HexPair(bs[i])
  {
    assert bs[..i + 1] == bs[..i] + [bs[i]];
    HexOfBytesSnoc(bs[..i], bs[i]);
  }

  /** The SHA-256 digest of `str` written as 64 lowercase hex digits, two per
      digest byte. */
  method Sha256Hex(sha256: string -> Digest, str: string) returns (hex: string)
    ensures hex == HexOfBytes(sha256(str))
    ensures |hex| == 64 && AllHex(hex)
  {
    var hash := sha256(str);
    hex := "";
    var i := 0;
    while i < 32
      invariant 0 <= i <= 32
      invariant hex == HexOfBytes(hash[..i])
    {
      HexOfBytesPrefix(hash, i);
      hex := hex + HexPair(hash[i]);
      i := i + 1;
    }
    assert hash[..i] == hash;
  }

  const Service: string := "ocr"
  const Host: string := "ocr.tencentcloudapi.com"
  const Algorithm: string := "TC3-HMAC-SHA256"
  const SignedHeaders: string := "content-type;host"
  const CanonicalHeaders: string := "content-type:application/json\nhost:" + Host + "\n"

  /** Method, URI, empty query, headers, signed headers and payload hash, each
      followed by a line break except the last. */
  function CanonicalRequest(payloadHash: string): string
  {
    "POST" + "\n" + "/" + "\n" + "" + "\n" + CanonicalHeaders + "\n" + SignedHeaders + "\n" + payloadHash
  }

  function CredentialScope(date: string): string
  {
    date + "/" + Service + "/" + "tc3_request"
  }

  function StringToSign(timestamp: int, date: string, requestHash: string): string
  {
    Algorithm + "\n" + Decimal(timestamp) + "\n" + CredentialScope(date) + "\n" + requestHash
  }

  /** The key chain: the secret prefixed with "TC3" signs the date, that result
      signs the service name, and that result signs "tc3_request". */
  function SigningKey(hmac: (string, string) -> Digest, secretKey: string, date: string): string
  {
    var kDate := RawText(hmac("TC3" + secretKey, date));
    var kService := RawText(hmac(kDate, Service));
    RawText(hmac(kService, "tc3_request"))
  }

  /** The hex SHA-256 of the canonical request built around the hex SHA-256 of the payload. */
  function RequestHash(sha256: string -> Digest, payload: string): string
  {
    HexOfBytes(sha256(CanonicalRequest(HexOfBytes(sha256(payload)))))
  }

  /** The hex encoding of the HMAC of the string to sign under the signing key. */
  function Signature(sha256: string -> Digest, hmac: (string, string) -> Digest,
                     secretKey: string, timestamp: int, date: string, payload: string): string
  {
    var toSign := StringToSign(timestamp, date, RequestHash(sha256, payload));
    HexOfBytes(Bytes(RawText(hmac(SigningKey(hmac, secretKey, date), toSign))))
  }

  /** The Authorization header value; `date` is the UTC day of `timestamp`. */
  function Authorization(sha256: string -> Digest, hmac: (string, string) -> Digest,
                         secretId: string, secretKey: string, timestamp: int, date: string, payload: string): string
  {
    Algorithm + " " + "Credential=" + secretId + "/" + CredentialScope(date) + ", "
      + "SignedHeaders=" + SignedHeaders + ", " + "Signature=" + Signature(sha256, hmac, secretKey, timestamp, date, payload)
  }

  /** The canonical request is the six fields joined by line breaks. */
  lemma CanonicalRequestFields(payloadHash: string)
    ensures CanonicalRequest(payloadHash) == Join(["POST", "/", "", CanonicalHeaders, SignedHeaders, payloadHash], '\n')
  {
    JoinSix("POST", "/", "", CanonicalHeaders, SignedHeaders, payloadHash, '\n');
  }

  /** The canonical request ends with the payload hash, so different hashes give
      different requests. */
  lemma CanonicalRequestInjective(h1: string, h2: string)
    requires CanonicalRequest(h1) == CanonicalRequest(h2)
    ensures h1 == h2
  {
    var prefix := CanonicalRequest("");
    Append3(prefix, "", h1);
    Append3(prefix, "", h2);
    assert CanonicalRequest(h1) == prefix + h1;
    assert CanonicalRequest(h2) == prefix + h2;
    assert h1 == (prefix + h1)[|prefix|..];
  }

  lemma JoinSix(a: string, b: string, c: string, d: string, e: string, f: string, sep: char)
    ensures Join([a, b, c, d, e, f], sep) == a + [sep] + b + [sep] + c + [sep] + d + [sep] + e + [sep] + f
  {
    JoinSnoc([a], b, sep);
    assert [a] + [b] == [a, b];
    JoinSnoc([a, b], c, sep);
    assert [a, b] + [c] == [a, b, c];
    JoinSnoc([a, b, c], d, sep);
    assert [a, b, c] + [d] == [a, b, c, d];
    JoinSnoc([a, b, c, d], e, sep);
    assert [a, b, c, d] + [e] == [a, b, c, d, e];
    JoinSnoc([a, b, c, d, e], f, sep);
    assert [a, b, c, d, e] + [f] == [a, b, c, d, e, f];
  }

  lemma JoinFour(a: string, b: string, c: string, d: string, sep: char)
    ensures Join([a, b, c, d], sep) == a + [sep] + b + [sep] + c + [sep] + d
  {
    JoinSnoc([a], b, sep);
    assert [a] + [b] == [a, b];
    JoinSnoc([a, b], c, sep);
    assert [a, b] + [c] == [a, b, c];
    JoinSnoc([a, b, c], d, sep);
    assert [a, b, c] + [d] == [a, b, c, d];
  }

  /** With a date and request hash free of line breaks, the string to sign reads
      back as algorithm, timestamp, scope and hash, and its second line parses to
      the timestamp. */
  lemma StringToSignLines(timestamp: int, date: string, requestHash: string)
    requires '\n' !in date && '\n' !in requestHash
    ensures var ls := Split(StringToSign(timestamp, date, requestHash), '\n');
      && ls == [Algorithm, Decimal(timestamp), CredentialScope(date), requestHash]
      && ParseDecimal(ls[1]) == Some(timestamp)
  {
    var ls := [Algorithm, Decimal(timestamp), CredentialScope(date), requestHash];
    JoinFour(Algorithm, Decimal(timestamp), CredentialScope(date), requestHash, '\n');
    assert '\n' !in Decimal(timestamp) by {
      forall i | 0 <= i < |Decimal(timestamp)| ensures Decimal(timestamp)[i] != '\n' {
      }
    }
    assert '\n' !in CredentialScope(date);
    assert '\n' !in Algorithm;
    SplitJoin(ls, '\n');
    ParseDecimalRoundTrip(timestamp);
  }

  /** The header value spelled out: credential, scope, signed headers, and a
      signature of 64 lowercase hex digits that encodes the HMAC of the string to
      sign under the signing key (storing the digest in a string and encoding that
      string's bytes loses nothing). */
  lemma AuthorizationForm(sha256: string -> Digest, hmac: (string, string) -> Digest,
                          secretId: string, secretKey: string, timestamp: int, date: string, payload: string)
    ensures var sig := Signature(sha256, hmac, secretKey, timestamp, date, payload);
      var auth := Authorization(sha256, hmac, secretId, secretKey, timestamp, date, payload);
      && auth == "TC3-HMAC-SHA256 Credential=" + secretId + "/" + date + "/ocr/tc3_request"
           + ", SignedHeaders=content-type;host" + ", Signature=" + sig
      && sig == HexOfBytes(hmac(SigningKey(hmac, secretKey, date), StringToSign(timestamp, date, RequestHash(sha256, payload))))
      && |sig| == 64 && AllHex(sig)
  {
    var sig := Signature(sha256, hmac, secretKey, timestamp, date, payload);
    var d := hmac(SigningKey(hmac, secretKey, date), StringToSign(timestamp, date, RequestHash(sha256, payload)));
    assert sig == HexOfBytes(d);
    HeaderText(secretId, date, sig);
  }

  /** The header assembly with its literal pieces merged. */
  lemma HeaderText(id: string, date: string, sig: string)
    ensures Algorithm + " " + "Credential=" + id + "/" + CredentialScope(date) + ", "
      + "SignedHeaders=" + SignedHeaders + ", " + "Signature=" + sig
      == "TC3-HMAC-SHA256 Credential=" + id + "/" + date + "/ocr/tc3_request"
           + ", SignedHeaders=content-type;host" + ", Signature=" + sig
  {
    var y := "TC3-HMAC-SHA256 Credential=" + id + "/";
    assert Algorithm + " " + "Credential=" == "TC3-HMAC-SHA256 Credential=";
    assert CredentialScope(date) == date + "/ocr/tc3_request";
    Append3(y, date, "/ocr/tc3_request");
    var z := y + date + "/ocr/tc3_request";
    Append3(z, ", ", "SignedHeaders=");
    Append3(z, ", SignedHeaders=", SignedHeaders);
    SignedHeadersText();
    var w := z + ", SignedHeaders=content-type;host";
    Append3(w, ", ", "Signature=");
    assert ", " + "Signature=" == ", Signature=";
  }

  lemma Append3(a: string, b: string, c: string)
    ensures a + (b + c) == a + b + c
  {
  }

  lemma SignedHeadersText()
    ensures ", " + "SignedHeaders=" == ", SignedHeaders="
    ensures ", SignedHeaders=" + SignedHeaders == ", SignedHeaders=content-type;host"
  {
  }
}
