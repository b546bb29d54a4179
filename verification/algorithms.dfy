/**
 * The algorithm registry of crypto.js: the fixed table from name to one-shot
 * digest function, and the shared 64-byte block size.
 *
 * The SHA-1, SHA-256 and MD5 implementations live in sha.js, sha256.js and
 * md5.js, which are not part of this model. They enter as a `Registry`
 * value: three arbitrary byte-sequence functions, constrained only by the
 * digest length each algorithm is known to produce. Every property proved
 * below therefore holds for any functions with those lengths.
 */
module Algorithms {
  import opened Wrappers
  import opened Bytes

  /** Block size of the compression function; also the HMAC pad length. */
  const BlockSize: nat := 64

  /** The registered algorithms; the table is closed. */
  datatype Alg = Sha1 | Sha256 | Md5

  /** Failure raised when an algorithm name is not registered. */
  datatype Error = UnsupportedAlgorithm(name: string)

  /** The key under which an algorithm is registered. */
  function Name(alg: Alg): string
  {
    match alg
    case Sha1 => "sha1"
    case Sha256 => "sha256"
    case Md5 => "md5"
  }

  /** Output length, in bytes, of each registered algorithm. */
  function DigestLength(alg: Alg): nat
  {
    match alg
    case Sha1 => 20
    case Sha256 => 32
    case Md5 => 16
  }

  /** A one-shot digest function: any byte sequence to its digest. */
  type DigestFn = seq<byte> -> seq<byte>

  /** One implementation per registered algorithm. */
  datatype Suite = Suite(sha1: seq<byte> -> seq<byte>,
                         sha256: seq<byte> -> seq<byte>,
                         md5: seq<byte> -> seq<byte>)

  ghost predicate Conforms(s: Suite)
  {
    forall m :: |s.sha1(m)| == 20 && |s.sha256(m)| == 32 && |s.md5(m)| == 16
  }

  /** The implementations behind the table, with their assumed output lengths. */
  type Registry = s: Suite | Conforms(s)
    witness Suite((m: seq<byte>) => Zeros(20), (m: seq<byte>) => Zeros(32),
                  (m: seq<byte>) => Zeros(16))

  /** The digest function registered for `alg`. */
  function Fn(reg: Registry, alg: Alg): DigestFn
  {
    match alg
    case Sha1 => reg.sha1
    case Sha256 => reg.sha256
    case Md5 => reg.md5
  }

  /** One-shot digest of `m` under `alg`. */
  function Digest(reg: Registry, alg: Alg, m: seq<byte>): (d: seq<byte>)
    ensures |d| == DigestLength(alg)
    ensures |d| <= BlockSize
  {
    Fn(reg, alg)(m)
  }

  /** Every output of the function registered for `alg` has that algorithm's digest length. */
  lemma FnLength(reg: Registry, alg: Alg, m: seq<byte>)
    ensures |Fn(reg, alg)(m)| == DigestLength(alg)
  {
  }

  /** A name is registered when some algorithm carries it. */
  ghost predicate Registered(name: string)
  {
    exists alg: Alg :: Name(alg) == name
  }

  /**
   * Name resolution: `None` is an omitted (or otherwise falsy) argument.
   * An omitted or empty name falls back to sha1; an unknown name fails.
   */
  function Resolve(name: Option<string>): (r: Result<Alg, Error>)
    ensures name.None? || name.value == "" ==> r == Success(Sha1)
    ensures name.Some? && name.value != "" ==>
              (r.Success? <==> Registered(name.value))
    ensures name.Some? && name.value != "" && r.Success? ==>
              Name(r.value) == name.value
    ensures r.Failure? ==> name.Some? && r.error == UnsupportedAlgorithm(name.value)
  {
    var n := if name.None? || name.value == "" then Name(Sha1) else name.value;
    if n == Name(Sha1) then Success(Sha1)
    else if n == Name(Sha256) then Success(Sha256)
    else if n == Name(Md5) then Success(Md5)
    else
      assert !Registered(n) by {
        forall alg: Alg ensures Name(alg) != n {
        }
      }
      Failure(UnsupportedAlgorithm(n))
  }

  /** Every algorithm is found again under its own name. */
  lemma ResolveName(alg: Alg)
    ensures Resolve(Some(Name(alg))) == Success(alg)
  {
  }
}
