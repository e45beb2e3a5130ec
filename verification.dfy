/**
 * The `verifyData` server action: read the five newest readings, fail if
 * the read errored or came back empty, otherwise hash the JSON text of the
 * batch with SHA-256 and return the digest together with a simulated
 * transaction id, a timestamp and the number of records hashed.
 *
 * The JSON serialiser, SHA-256, the random bytes and the clock are inputs:
 * `serialize` and `sha256` are arbitrary deterministic functions, and a
 * SHA-256 digest is any 32 bytes.
 */
module Verification {
  import opened Wrappers
  import opened Emission
  import Hex

  /** The row limit of the verification query. */
  const QueryLimit: nat := 5

  const FetchFailedMessage: string := "Failed to fetch data for verification."
  const NoDataMessage: string := "No data available to verify."

  /** Thirty-two bytes: a SHA-256 digest, or the random transaction bytes. */
  type Bytes32 = b: seq<Hex.Byte> | |b| == 32 witness seq(32, _ => 0)

  /** The `{ data, error }` pair the store's query resolves to. */
  datatype QueryResult = QueryResult(errored: bool, data: Option<seq<Reading>>)

  datatype VerificationRecord = VerificationRecord(
    hash: string,
    txnId: string,
    timestamp: string,
    recordCount: nat)

  /** A returned record, or the message of the error thrown. */
  datatype Outcome = Verified(record: VerificationRecord) | Failed(message: string)

  /** A "0x"-prefixed, lower-case hexadecimal text of a 32-byte value. */
  predicate IsPrefixedHex32(s: string) {
    |s| == 66 && s[..2] == "0x" && forall i :: 2 <= i < |s| ==> Hex.IsDigit(s[i])
  }

  function Prefixed(bytes: Bytes32): (s: string)
    ensures IsPrefixedHex32(s)
  {
    "0x" + Hex.Encode(bytes)
  }

  /**
   * `verifyData`, given the query's result, the serialiser, the hash, the 32
   * random bytes and the ISO time string it would read from the clock.
   */
  function VerifyData(
    query: QueryResult,
    serialize: seq<Reading> -> string,
    sha256: string -> Bytes32,
    randomBytes: Bytes32,
    now: string): (r: Outcome)
    ensures query.errored ==> r == Failed(FetchFailedMessage)
    ensures !query.errored && (query.data == None || query.data == Some([])) ==> r == Failed(NoDataMessage)
    ensures r.Verified? <==> !query.errored && query.data.Some? && query.data.value != []
    ensures r.Verified? ==>
      && r.record.recordCount == |query.data.value| >= 1
      && IsPrefixedHex32(r.record.hash)
      && IsPrefixedHex32(r.record.txnId)
      && r.record.timestamp == now
  {
    if query.errored then Failed(FetchFailedMessage)
    else if query.data.None? || |query.data.value| == 0 then Failed(NoDataMessage)
    else
      var batch := query.data.value;
      var payload := serialize(batch);
      var digest := sha256(payload);
      Verified(VerificationRecord(Prefixed(digest), Prefixed(randomBytes), now, |batch|))
  }

  /** The digest written after "0x", read back. */
  function DigestOf(hash: string): Option<seq<Hex.Byte>>
    requires |hash| >= 2
  {
    Hex.Decode(hash[2..])
  }

  /**
   * The hash field carries exactly the SHA-256 digest of the serialised
   * batch: decoding it gives the digest back.
   */
  lemma HashIsDigestOfBatch(
    query: QueryResult, serialize: seq<Reading> -> string, sha256: string -> Bytes32,
    randomBytes: Bytes32, now: string)
    requires VerifyData(query, serialize, sha256, randomBytes, now).Verified?
    ensures DigestOf(VerifyData(query, serialize, sha256, randomBytes, now).record.hash)
            == Some(sha256(serialize(query.data.value)))
  {
    var digest := sha256(serialize(query.data.value));
    assert ("0x" + Hex.Encode(digest))[2..] == Hex.Encode(digest);
    Hex.DecodeEncode(digest);
  }

  /**
   * Determinism: two calls that read the same batch produce the same hash,
   * whatever random bytes and time they draw; and two calls whose hashes
   * agree hashed payloads with the same digest.
   */
  lemma HashDependsOnlyOnBatch(
    q1: QueryResult, q2: QueryResult, serialize: seq<Reading> -> string, sha256: string -> Bytes32,
    random1: Bytes32, random2: Bytes32, now1: string, now2: string)
    requires VerifyData(q1, serialize, sha256, random1, now1).Verified?
    requires VerifyData(q2, serialize, sha256, random2, now2).Verified?
    ensures q1.data == q2.data ==>
      VerifyData(q1, serialize, sha256, random1, now1).record.hash
        == VerifyData(q2, serialize, sha256, random2, now2).record.hash
    ensures VerifyData(q1, serialize, sha256, random1, now1).record.hash
              == VerifyData(q2, serialize, sha256, random2, now2).record.hash
            <==> sha256(serialize(q1.data.value)) == sha256(serialize(q2.data.value))
  {
    HashIsDigestOfBatch(q1, serialize, sha256, random1, now1);
    HashIsDigestOfBatch(q2, serialize, sha256, random2, now2);
  }

  /**
   * The transaction id is the random bytes in hexadecimal and owes nothing
   * to the batch: decoding it after "0x" gives the random bytes back, two
   * successful calls with the same random bytes get the same id, and
   * distinct random bytes give distinct ids.
   */
  lemma TxnIdIsRandomBytes(
    q1: QueryResult, q2: QueryResult, serialize: seq<Reading> -> string, sha256: string -> Bytes32,
    random1: Bytes32, random2: Bytes32, now1: string, now2: string)
    requires VerifyData(q1, serialize, sha256, random1, now1).Verified?
    requires VerifyData(q2, serialize, sha256, random2, now2).Verified?
    ensures DigestOf(VerifyData(q1, serialize, sha256, random1, now1).record.txnId) == Some(random1)
    ensures VerifyData(q1, serialize, sha256, random1, now1).record.txnId
              == VerifyData(q2, serialize, sha256, random2, now2).record.txnId
            <==> random1 == random2
  {
    var t1 := VerifyData(q1, serialize, sha256, random1, now1).record.txnId;
    var t2 := VerifyData(q2, serialize, sha256, random2, now2).record.txnId;
    assert t1[2..] == Hex.Encode(random1);
    Hex.DecodeEncode(random1);
    if t1 == t2 {
      assert t2[2..] == Hex.Encode(random2);
      Hex.EncodeInjective(random1, random2);
    }
  }

  /** With the query's limit of five rows, a record counts one to five readings. */
  lemma RecordCountWithinQueryLimit(
    query: QueryResult, serialize: seq<Reading> -> string, sha256: string -> Bytes32,
    randomBytes: Bytes32, now: string)
    requires query.data.Some? ==> |query.data.value| <= QueryLimit
    requires VerifyData(query, serialize, sha256, randomBytes, now).Verified?
    ensures 1 <= VerifyData(query, serialize, sha256, randomBytes, now).record.recordCount <= QueryLimit
  {
  }
}
