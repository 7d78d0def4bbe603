/** `_encode_json_gzip_base64_checked` of output.c: an attribute printed, compressed, encoded and made a Java string. */
module Attributes {
  import opened Common
  import opened Unicode
  import opened WafObjects
  import opened JsonText
  import opened JsonSegments
  import opened JsonPrinter
  import opened Transcoder
  import JsonDecode
  import Base64
  import Base64Encoder

  const MAX_SIZE_OF_SCHEMA: nat := 2500

  lemma QuadIsAscii(a: byte, b: byte, c: byte)
    ensures JsonDecode.IsAscii(Base64.Quad(a, b, c))
  {
    hide Base64.Enc6;
    EncIsAscii();
  }

  lemma EncIsAscii()
    ensures forall i :: 0 <= i < 64 ==> Base64.Enc6(i) < 0x80
  {
  }

  lemma {:induction false} EncodingIsAscii(s: seq<byte>)
    ensures JsonDecode.IsAscii(Base64.Encode(s))
  {
    if |s| > 2 {
      hide Base64.Quad, Base64.Enc6;
      QuadIsAscii(s[0], s[1], s[2]);
      EncodingIsAscii(s[3..]);
    } else {
      hide Base64.Enc6;
      EncIsAscii();
    }
  }

  /** What compression gives is a parameter of the model. The buffer for the encoding is exactly as long as the encoding. */
  method EncodeJsonGzipBase64(o: WafObject, gzip: Option<seq<byte>>) returns (r: Option<JString>)
    ensures r.Some? <==>
      Sound(o) && Height(o) <= 20 && |Text(o)| <= 2500 && gzip.Some?
    ensures r.Some? ==> r.value == JStringOf(Base64.Encode(gzip.value))
  {
    hide Text, Sound, Base64.Encode, JStringOf;
    var json, list := OutputConvertJson(o);
    if json == null {
      return None;
    }
    var jsonLen := JsonLength(json, list);
    if jsonLen > MAX_SIZE_OF_SCHEMA || gzip.None? {
      return None;
    }
    var js := EncodeGzip(gzip.value);
    return Some(js);
  }

  method EncodeGzip(gzip: seq<byte>) returns (r: JString)
    ensures r == JStringOf(Base64.Encode(gzip))
  {
    hide Base64.Encode, JStringOf;
    Base64.CapacityIsExact(gzip);
    var base64 := new byte[(4 * |gzip| / 3 + 3) / 4 * 4];
    var base64Len := Base64Encoder.Base64Encode(gzip, base64);
    r := JavaUtf8ToJString(base64, base64Len);
  }

  /** The characters of the Java string are those of the encoding, from which the compressed bytes can be recovered. */
  lemma EncodedString(gzip: seq<byte>)
    ensures Utf8ToUtf16(Base64.Encode(gzip)) == JsonDecode.Widen(Base64.Encode(gzip))
    ensures |Utf8ToUtf16(Base64.Encode(gzip))| == (|gzip| + 2) / 3 * 4
    ensures Base64.Decode(Base64.Encode(gzip)) == Some(gzip)
  {
    EncodingIsAscii(gzip);
    hide *;
    JsonDecode.DecodeAscii(Base64.Encode(gzip));
    Base64.DecodeEncode(gzip);
  }
}
