/** The messages of the protocol (src/protocol.rs, and Proof of src/zkp_core_engine.rs).
    Strings are the bytes that hold them. */
module Protocol {
  import opened Bytes

  type Text = seq<byte>
  type Nonce = s: seq<byte> | |s| == 16 witness seq(16, _ => 0)

  datatype Proof = Proof(rPoint: seq<byte>, sScalar: seq<byte>, timestamp: i64, nonce: Nonce)

  datatype AuthRequest = AuthRequest(userId: Text, publicKey: seq<byte>, proof: Proof)

  datatype AuthResponse = AuthResponse(userId: Text, success: bool, message: Text)

  datatype KafkaAuthRequest = KafkaAuthRequest(
    requestId: Text, userId: Text, publicKey: seq<byte>, proof: Proof, timestamp: i64)

  datatype KafkaAuthResponse = KafkaAuthResponse(
    requestId: Text, userId: Text, success: bool, message: Text, timestamp: i64)
}
