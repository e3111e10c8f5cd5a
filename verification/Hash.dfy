/**
 The front of src/shared/hash.c: one hash record for all algorithms, of which three can be
 computed. An unsupported algorithm leaves the digest as it was and still names itself in
 the record, and two records of an unsupported algorithm never compare equal.
 */
module Hash {
  import opened Folds
  import opened Words
  import Crc32
  import LaneHash

  datatype Algorithm = CRC32 | MD5 | SHA1 | SHA256 | SHA512

  /** The digest union; `Unset` is what fresh memory holds. */
  datatype Digest = Unset | CrcDigest(crc: Word) | ByteDigest(bytes: seq<Byte>)

  datatype HashRecord = HashRecord(algorithm: Algorithm, digest: Digest)

  datatype Status = Success | InvalidArgument

  predicate Supported(a: Algorithm) {
    a.CRC32? || a.MD5? || a.SHA256?
  }

  function DigestOf(a: Algorithm, d: seq<Byte>): Digest
    requires Supported(a)
  {
    match a
    case CRC32 => CrcDigest(Crc32.Crc(d, ZERO))
    case MD5 => ByteDigest(LaneHash.Md5Digest(d))
    case SHA256 => ByteDigest(LaneHash.Sha256Digest(d))
  }

  /** `ps14_hash_compute` on a record that held `h`. */
  function Computed(a: Algorithm, d: seq<Byte>, h: HashRecord): (Status, HashRecord) {
    if d == [] then (InvalidArgument, h)
    else if !Supported(a) then (InvalidArgument, h.(algorithm := a))
    else (Success, HashRecord(a, DigestOf(a, d)))
  }

  /** `ps14_hash_compare`. */
  predicate Compare(h1: HashRecord, h2: HashRecord) {
    h1.algorithm == h2.algorithm && Supported(h1.algorithm) && h1.digest == h2.digest
  }

  /** The record of a message under a supported algorithm. */
  function HashOf(a: Algorithm, d: seq<Byte>): HashRecord
    requires Supported(a)
  {
    HashRecord(a, DigestOf(a, d))
  }

  /**
   The guarantee all three algorithms share: of two messages of one length that differ
   only inside four consecutive bytes, the hashes compare equal exactly when the messages
   are the same.
   */
  lemma WindowTold(a: Algorithm, s: seq<Byte>, t: seq<Byte>, lo: nat, hi: nat)
    requires Supported(a)
    requires AgreeOutside(s, t, lo, hi) && hi - lo <= 4
    ensures Compare(HashOf(a, s), HashOf(a, t)) <==> s == t
  {
    hide Crc32.Crc, LaneHash.Md5Digest, LaneHash.Sha256Digest;
    match a
    case CRC32 => Crc32.BurstDetected(s, t, lo, hi, ZERO);
    case MD5 => LaneHash.Md5WindowDetected(s, t, lo, hi);
    case SHA256 => LaneHash.Sha256WindowDetected(s, t, lo, hi);
  }

  /** Computing into a record, by the byte loops; the CRC table is built on first use. */
  method Compute(unit: Crc32.CrcUnit, a: Algorithm, d: seq<Byte>, h: HashRecord) returns (status: Status, r: HashRecord)
    requires unit.Valid()
    modifies unit, unit.table
    ensures unit.Valid()
    ensures (status, r) == Computed(a, d, h)
  {
    if d == [] {
      return InvalidArgument, h;
    }
    r := h.(algorithm := a);
    match a {
    case CRC32 =>
      var crc := unit.Crc32(d, ZERO);
      r := r.(digest := CrcDigest(crc));
    case MD5 =>
      var digest := LaneHash.Md5(d);
      r := r.(digest := ByteDigest(digest));
    case SHA256 =>
      var digest := LaneHash.Sha256(d);
      r := r.(digest := ByteDigest(digest));
    case _ =>
      return InvalidArgument, r;
    }
    status := Success;
  }
}
