/**
 Encoding a struct and decoding the bytes (nanopb/pb_encode.c:528-579, nanopb/pb_decode.c:1084-1094).
 */
module PbRoundTrip {
  import opened Keys
  import opened Coding
  import opened PbSchema
  import opened PbValues
  import opened PbStream
  import opened PbEncode
  import opened PbDecode

  /**
   Encoding a struct that fits and decoding the bytes: present fields come back, absent ones are at their defaults.
   */
  method RoundTrip(fields: seq<Field>, v: seq<Slot>) returns (decoded: seq<Slot>, ok: bool)
    requires FitsMessage(fields, v)
    ensures ok && decoded == NormMessage(fields, v) && SameMessage(fields, v, decoded)
  {
    hide FitsMessage, EncFrom, NormMessage, SameMessage, Encoded, RequiredOccur;
    FitsIsTyped(fields, v);
    NormIsSame(fields, v);
    var size, sized := GetEncodedSize(fields, v);
    var out := new OStream(false, size);
    ok := Encode(out, fields, v);
    JoinNothing(EncFrom(fields, v, 0));
    var input := new IStream(out.buffer, 0, |out.buffer|);
    assert input.Rest() == out.buffer;
    PlainEncoded(input.Rest(), fields, v);
    ok, decoded := Decode(input, fields, v, []);
  }
}
