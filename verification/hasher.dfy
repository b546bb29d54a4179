/**
 * The streaming object returned by `hash(alg, key)` in crypto.js, and the
 * `createHash` / `createHmac` factories built on it. The object is modelled
 * as an immutable value: `update` returns the next state of the same object
 * and `digest` returns the result together with the state it leaves behind.
 */
module Hasher {
  import opened Wrappers
  import opened Bytes
  import opened Algorithms
  import opened KeyedDigest

  /**
   * The object's closure: the resolved algorithm, the key, the chunk list
   * `bufs` and the `length` counter.
   *
   * `key` holds the key as tested for truthiness by `digest`: `None` is a
   * falsy key, that is an omitted key (`createHash`) or the empty STRING
   * `""`, so `createHmac(alg, "")` computes a plain digest; an empty Buffer
   * is truthy and is `Some([])`, giving an HMAC under the all-zero key.
   *
   * `appended` is the `length` counter: bytes appended since construction.
   * crypto.js never reads it, and `digest` does not reset it.
   */
  datatype State = State(alg: Alg, key: Option<seq<byte>>,
                         chunks: seq<seq<byte>>, appended: nat)

  /** What `digest` yields: the raw digest, and the object's state afterwards. */
  datatype Finalized = Finalized(digest: seq<byte>, next: State)

  /** The message accumulated since construction or the last `digest`. */
  function Message(h: State): seq<byte>
  {
    Flatten(h.chunks)
  }

  /** The counter never falls behind the bytes still held. */
  ghost predicate Valid(h: State)
  {
    h.appended >= TotalLength(h.chunks)
  }

  /**
   * `hash(alg, key)`: resolves the name eagerly, so an unknown name fails
   * here, before any `update`; otherwise an object with no chunks.
   */
  function Create(name: Option<string>, key: Option<seq<byte>>): (r: Result<State, Error>)
    ensures r.Success? <==> Resolve(name).Success?
    ensures r.Failure? ==> r.error == Resolve(name).error
    ensures r.Success? ==>
              && r.value.alg == Resolve(name).value
              && r.value.key == key
              && Message(r.value) == []
              && r.value.appended == 0
              && Valid(r.value)
  {
    match Resolve(name)
    case Failure(e) => Failure(e)
    case Success(alg) => Success(State(alg, key, [], 0))
  }

  /** `createHash(alg)`: a hasher with no key. */
  function CreateHash(name: Option<string>): (r: Result<State, Error>)
    ensures r.Success? <==> Resolve(name).Success?
    ensures r.Success? ==>
              r.value.alg == Resolve(name).value && r.value.key.None? && Message(r.value) == []
  {
    Create(name, None)
  }

  /** `createHmac(alg, key)`: a hasher bound to `key` (see `State` for falsy keys). */
  function CreateHmac(name: Option<string>, key: Option<seq<byte>>): (r: Result<State, Error>)
    ensures r.Success? <==> Resolve(name).Success?
    ensures r.Success? ==>
              r.value.alg == Resolve(name).value && r.value.key == key && Message(r.value) == []
  {
    Create(name, key)
  }

  /**
   * `update(data)`: appends exactly one chunk and returns the same object;
   * the earlier chunks, the algorithm and the key are untouched.
   */
  function Update(h: State, data: seq<byte>): (r: State)
    ensures r.alg == h.alg && r.key == h.key
    ensures |r.chunks| == |h.chunks| + 1
    ensures r.chunks[..|h.chunks|] == h.chunks && r.chunks[|h.chunks|..] == [data]
    ensures Message(r) == Message(h) + data
    ensures r.appended == h.appended + |data|
    ensures Valid(h) ==> Valid(r)
  {
    FlattenAppend(h.chunks, data);
    TotalLengthAppend(h.chunks, data);
    h.(chunks := h.chunks + [data], appended := h.appended + |data|)
  }

  /** A chain `.update(cs[0]).update(cs[1])...` of calls, left to right. */
  function UpdateAll(h: State, cs: seq<seq<byte>>): State
    decreases |cs|
  {
    if |cs| == 0 then h else UpdateAll(Update(h, cs[0]), cs[1..])
  }

  /** The value `digest` computes over message `m`: HMAC when the key is truthy. */
  function Tag(reg: Registry, alg: Alg, key: Option<seq<byte>>, m: seq<byte>): (t: seq<byte>)
    ensures |t| == DigestLength(alg)
    ensures key.None? ==> t == Digest(reg, alg, m)
    ensures key.Some? ==> t == RfcHmac(Fn(reg, alg), key.value, m)
  {
    if key.Some? then
      HmacLength(reg, alg, key.value, m);
      FnLength(reg, alg, key.value);
      HmacIsRfc2104(Fn(reg, alg), key.value, m);
      Hmac(Fn(reg, alg), key.value, m)
    else Digest(reg, alg, m)
  }

  /**
   * `digest()`: concatenates the chunks in order, applies HMAC when the key
   * is truthy and the plain digest otherwise, then empties the chunk list.
   */
  function Finalize(reg: Registry, h: State): (f: Finalized)
    ensures |f.digest| == DigestLength(h.alg)
    ensures h.key.None? ==> f.digest == Digest(reg, h.alg, Message(h))
    ensures h.key.Some? ==> f.digest == RfcHmac(Fn(reg, h.alg), h.key.value, Message(h))
    ensures f.next.alg == h.alg && f.next.key == h.key
    ensures Message(f.next) == [] && f.next.appended == h.appended
    ensures Valid(f.next)
  {
    Finalized(Tag(reg, h.alg, h.key, Flatten(h.chunks)), h.(chunks := []))
  }

  /**
   * `digest()` run step by step: `Buffer.concat(bufs)`, then the pad loop and
   * nested digests when the key is truthy, then the plain digest otherwise.
   */
  method RunDigest(reg: Registry, h: State) returns (d: seq<byte>, next: State)
    ensures d == Finalize(reg, h).digest && next == Finalize(reg, h).next
  {
    var buf := Concat(h.chunks);
    if h.key.Some? {
      FnLength(reg, h.alg, h.key.value);
      d := ComputeHmac(Fn(reg, h.alg), h.key.value, buf);
    } else {
      d := Digest(reg, h.alg, buf);
    }
    next := h.(chunks := []);
  }

  // ---------------------------------------------------------------------
  // Properties.

  /** A chain of updates appends its chunks in order and changes nothing else. */
  lemma {:induction false} UpdateAllAppends(h: State, cs: seq<seq<byte>>)
    ensures UpdateAll(h, cs).alg == h.alg && UpdateAll(h, cs).key == h.key
    ensures UpdateAll(h, cs).chunks == h.chunks + cs
    ensures Message(UpdateAll(h, cs)) == Message(h) + Flatten(cs)
    ensures UpdateAll(h, cs).appended == h.appended + TotalLength(cs)
    decreases |cs|
  {
    if |cs| == 0 {
      assert h.chunks + cs == h.chunks;
    } else {
      var h1 := Update(h, cs[0]);
      UpdateAllAppends(h1, cs[1..]);
      assert h1.chunks == h.chunks + [cs[0]];
      assert h.chunks + [cs[0]] + cs[1..] == h.chunks + cs;
      assert Message(h1) + Flatten(cs[1..]) == Message(h) + Flatten(cs);
    }
  }

  /** `createHash(A).update(M).digest()` is the one-shot digest of M. */
  lemma {:induction false} OneShot(reg: Registry, name: Option<string>, m: seq<byte>)
    requires CreateHash(name).Success?
    ensures Finalize(reg, Update(CreateHash(name).value, m)).digest
              == Digest(reg, Resolve(name).value, m)
  {
    assert Message(CreateHash(name).value) + m == m;
  }

  /**
   * Chunking invariance: without a key, any split of M gives the digest of
   * M; with a key, the RFC 2104 HMAC of M. Either way the result depends
   * only on the concatenation of the chunks.
   */
  lemma {:induction false} ChunkingInvariance(reg: Registry, h: State, cs: seq<seq<byte>>)
    ensures Finalize(reg, UpdateAll(h, cs)).digest
              == Finalize(reg, Update(h, Flatten(cs))).digest
    ensures Message(h) == [] && h.key.None? ==>
              Finalize(reg, UpdateAll(h, cs)).digest == Digest(reg, h.alg, Flatten(cs))
    ensures Message(h) == [] && h.key.Some? ==>
              Finalize(reg, UpdateAll(h, cs)).digest
                == RfcHmac(Fn(reg, h.alg), h.key.value, Flatten(cs))
  {
    UpdateAllAppends(h, cs);
    if Message(h) == [] {
      assert Message(UpdateAll(h, cs)) == Flatten(cs);
    }
  }

  /** A keyed hasher computes the RFC 2104 HMAC of everything fed to it. */
  lemma {:induction false} HmacStream(reg: Registry, name: Option<string>, key: seq<byte>, cs: seq<seq<byte>>)
    requires CreateHmac(name, Some(key)).Success?
    ensures Finalize(reg, UpdateAll(CreateHmac(name, Some(key)).value, cs)).digest
              == RfcHmac(Fn(reg, Resolve(name).value), key, Flatten(cs))
  {
    ChunkingInvariance(reg, CreateHmac(name, Some(key)).value, cs);
  }

  /**
   * Reset after `digest`: further updates on the same object give what a
   * fresh object with the same algorithm and key gives, never a digest of
   * the earlier message followed by the new one.
   */
  lemma {:induction false} ResetAfterDigest(reg: Registry, h: State, cs: seq<seq<byte>>)
    ensures Finalize(reg, UpdateAll(Finalize(reg, h).next, cs)).digest
              == Finalize(reg, UpdateAll(State(h.alg, h.key, [], 0), cs)).digest
    ensures h.key.None? ==>
              Finalize(reg, UpdateAll(Finalize(reg, h).next, cs)).digest
                == Digest(reg, h.alg, Flatten(cs))
  {
    var next := Finalize(reg, h).next;
    var initial := State(h.alg, h.key, [], 0);
    ChunkingInvariance(reg, next, cs);
    ChunkingInvariance(reg, initial, cs);
    assert Message(Update(next, Flatten(cs))) == Flatten(cs);
    assert Message(Update(initial, Flatten(cs))) == Flatten(cs);
  }

  /** A falsy key (for instance the empty string) yields the plain digest. */
  lemma {:induction false} FalsyKeyIsPlainHash(reg: Registry, name: Option<string>, cs: seq<seq<byte>>)
    requires CreateHash(name).Success?
    ensures CreateHmac(name, None).Success?
    ensures Finalize(reg, UpdateAll(CreateHmac(name, None).value, cs)).digest
              == Digest(reg, Resolve(name).value, Flatten(cs))
  {
    ChunkingInvariance(reg, CreateHmac(name, None).value, cs);
  }

  /** Through any chain of updates, the counter never falls behind the bytes held. */
  lemma {:induction false} CounterCoversMessage(h: State, cs: seq<seq<byte>>)
    requires Valid(h)
    ensures Valid(UpdateAll(h, cs))
    ensures |Message(UpdateAll(h, cs))| <= UpdateAll(h, cs).appended
    decreases |cs|
  {
    if |cs| > 0 {
      CounterCoversMessage(Update(h, cs[0]), cs[1..]);
    }
    FlattenLength(UpdateAll(h, cs).chunks);
  }

  /** The counter totals every byte appended since construction, across digests. */
  lemma {:induction false} CounterTotalsAppended(reg: Registry, h: State, before: seq<seq<byte>>, after: seq<seq<byte>>)
    requires h.appended == 0
    ensures UpdateAll(Finalize(reg, UpdateAll(h, before)).next, after).appended
              == TotalLength(before) + TotalLength(after)
  {
    var h1 := UpdateAll(h, before);
    UpdateAllAppends(h, before);
    var h2 := Finalize(reg, h1).next;
    assert h2.appended == h1.appended;
    UpdateAllAppends(h2, after);
  }
}
