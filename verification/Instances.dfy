/** Toy primitives that meet each assumption made of the real ones, so that none of them is empty. */
module Instances {
  import opened Wrappers
  import opened Bytes
  import opened Format
  import opened Aead
  import opened Container
  import opened Kem
  import opened KemSafety
  import opened ToyKeys

  function ToySeal(plaintext: bytes): bytes {
    plaintext + Zeros(TAG_LEN)
  }

  function ToyOpen(record: bytes): Option<bytes> {
    if |record| >= TAG_LEN && record[|record| - TAG_LEN..] == Zeros(TAG_LEN)
    then Some(record[..|record| - TAG_LEN]) else None
  }

  lemma TidyInstance() returns (a: Primitives)
    ensures Tidy(a)
  {
    a := Primitives((alg, k, n, p, ad) => ToySeal(p), (alg, k, n, r, ad) => ToyOpen(r), (ikm, salt, info) => Zeros(32));
    forall alg, k, n, p, ad
      ensures |a.seal(alg, k, n, p, ad)| == |p| + TAG_LEN
      ensures a.open(alg, k, n, a.seal(alg, k, n, p, ad), ad) == Some(p)
    {
      assert ToySeal(p)[..|p|] == p && ToySeal(p)[|p|..] == Zeros(TAG_LEN);
    }
    forall alg, k, n, r, ad | a.open(alg, k, n, r, ad).Some?
      ensures a.seal(alg, k, n, a.open(alg, k, n, r, ad).value, ad) == r
    {
      assert r == r[..|r| - TAG_LEN] + r[|r| - TAG_LEN..];
    }
  }

  // ---------- any log of encryptions and of wrapped keys ----------

  /** What a key was derived from: key material, salt, info. */
  type Origin = (bytes, bytes, bytes)

  function OriginOf(e: Encryption): Origin {
    (e.cek, e.h.streamSalt, MessageKeyInfo(e.h.suiteID, e.h.streamID))
  }

  predicate LookedUp(run: Run, j: nat, alg: ChunkAead, key: bytes, nonce: bytes, record: bytes, aad: bytes)
    requires j < |run.chs|
  {
    && alg == run.c.aead && key == run.c.messageKey
    && nonce == ChunkNonce(j % TWO_64)
    && aad == Aad(run.c, j, run.Last(j), |run.chs[j]|)
    && record == ToySeal(run.chs[j])
  }

  /** Opening by looking the tuple up among the seals of one run, from the `j`-th on. */
  function Lookup(run: Run, j: nat, alg: ChunkAead, key: bytes, nonce: bytes, record: bytes, aad: bytes): (r: Option<bytes>)
    requires j <= |run.chs|
    ensures r.Some? ==> exists i :: j <= i < |run.chs| && LookedUp(run, i, alg, key, nonce, record, aad) && r.value == run.chs[i]
    ensures r.None? ==> forall i :: j <= i < |run.chs| ==> !LookedUp(run, i, alg, key, nonce, record, aad)
    decreases |run.chs| - j
  {
    if j == |run.chs| then None
    else if LookedUp(run, j, alg, key, nonce, record, aad) then Some(run.chs[j])
    else Lookup(run, j + 1, alg, key, nonce, record, aad)
  }

  predicate Found(run: Run, alg: ChunkAead, key: bytes, nonce: bytes, record: bytes, aad: bytes, plaintext: bytes) {
    exists j :: 0 <= j < |run.chs| && LookedUp(run, j, alg, key, nonce, record, aad) && plaintext == run.chs[j]
  }

  /** The same among the seals of all runs. */
  function LookupLog(log: seq<Run>, alg: ChunkAead, key: bytes, nonce: bytes, record: bytes, aad: bytes): (r: Option<bytes>)
    ensures r.Some? ==> exists run :: run in log && Found(run, alg, key, nonce, record, aad, r.value)
    ensures r.None? ==> forall run, p :: run in log ==> !Found(run, alg, key, nonce, record, aad, p)
  {
    if log == [] then None
    else
      var r := Lookup(log[0], 0, alg, key, nonce, record, aad);
      if r.Some? then
        assert Found(log[0], alg, key, nonce, record, aad, r.value);
        r
      else LookupLog(log[1..], alg, key, nonce, record, aad)
  }

  /** A wrapped key, whom it was wrapped for, and the key it was wrapped under. */
  datatype ToyWrap = ToyWrap(r: Recipient, key: bytes, w: Wrap)

  predicate Unwraps(t: ToyWrap, key: bytes, nonce: bytes, ciphertext: bytes, aad: bytes) {
    key == t.key && nonce == t.w.env.nonce && ciphertext == t.w.env.ciphertext && aad == t.w.aad
  }

  /** Opening by looking the tuple up among the wraps. */
  function Unwrap(ts: seq<ToyWrap>, key: bytes, nonce: bytes, ciphertext: bytes, aad: bytes): (r: Option<bytes>)
    ensures r.Some? ==> exists t :: t in ts && Unwraps(t, key, nonce, ciphertext, aad) && r.value == t.w.cek
    ensures r.None? ==> forall t :: t in ts ==> !Unwraps(t, key, nonce, ciphertext, aad)
  {
    if ts == [] then None
    else if Unwraps(ts[0], key, nonce, ciphertext, aad) then Some(ts[0].w.cek)
    else Unwrap(ts[1..], key, nonce, ciphertext, aad)
  }

  function ToyWorld(origins: seq<Origin>, log: seq<Run>, ts: seq<ToyWrap>): Primitives {
    Primitives((alg, k, n, q, ad) => ToySeal(q),
               (alg, k, n, r, ad) =>
                 if |ad| == CHUNK_AAD_LEN then LookupLog(log, alg, k, n, r, ad) else Unwrap(ts, k, n, r, ad),
               (ikm, salt, info) => ToyKey(origins, (ikm, salt, info)))
  }

  /** A tuple belongs to one run only, and to one place in it. */
  lemma FoundUnique(r: Run, j: nat, s: Run, i: nat, alg: ChunkAead, key: bytes, nonce: bytes, record: bytes, aad: bytes)
    requires r.c.Valid() && s.c.Valid() && j < |r.chs| <= TWO_64 && i < |s.chs| <= TWO_64
    requires LookedUp(r, j, alg, key, nonce, record, aad) && LookedUp(s, i, alg, key, nonce, record, aad)
    ensures r.c == s.c && i == j
  {
    hide ChunkNonce, ChunkAad;
    AadPins(r.c, j, r.Last(j), |r.chs[j]|, s.c, i, s.Last(i), |s.chs[i]|);
    ModSmall(i, TWO_64);
    ModSmall(j, TWO_64);
  }

  ghost predicate Separate(log: seq<Run>) {
    && (forall r :: r in log ==> r.c.Valid() && r.Counted())
    && (forall r, s :: r in log && s in log && r.c == s.c ==> r == s)
  }

  /** Each seal of the log is found, as what it seals. */
  lemma LookupOwn(log: seq<Run>, r: Run, k: nat)
    requires Separate(log) && r in log && k < |r.chs|
    ensures LookupLog(log, r.c.aead, r.c.messageKey, ChunkNonce(k % TWO_64), ToySeal(r.chs[k]),
                      Aad(r.c, k, r.Last(k), |r.chs[k]|)) == Some(r.chs[k])
  {
    hide ChunkNonce, Aad, ToySeal, LookupLog;
    var record, n, ad := ToySeal(r.chs[k]), ChunkNonce(k % TWO_64), Aad(r.c, k, r.Last(k), |r.chs[k]|);
    var alg, key := r.c.aead, r.c.messageKey;
    assert LookedUp(r, k, alg, key, n, record, ad);
    assert Found(r, alg, key, n, record, ad, r.chs[k]);
    var o := LookupLog(log, alg, key, n, record, ad);
    var s :| s in log && Found(s, alg, key, n, record, ad, o.value);
    var i :| 0 <= i < |s.chs| && LookedUp(s, i, alg, key, n, record, ad) && o.value == s.chs[i];
    FoundUnique(r, k, s, i, alg, key, n, record, ad);
  }

  lemma ToyOpensOwn(origins: seq<Origin>, log: seq<Run>, ts: seq<ToyWrap>, r: Run, k: nat)
    requires Separate(log) && r in log && k < |r.chs|
    ensures OpensSealedAt(ToyWorld(origins, log, ts), r, k)
  {
    AadLength(r.c, k, r.Last(k), |r.chs[k]|);
    LookupOwn(log, r, k);
    hide ChunkNonce, ChunkAad, LookupLog, Zeros;
  }

  lemma ToyOnlyLogged(origins: seq<Origin>, log: seq<Run>, ts: seq<ToyWrap>, keys: iset<bytes>)
    ensures OnlyLogged(ToyWorld(origins, log, ts), keys, log)
  {
    var a := ToyWorld(origins, log, ts);
    forall alg, k, n, r, ad | k in keys && |ad| == CHUNK_AAD_LEN && a.open(alg, k, n, r, ad).Some?
      ensures LoggedSomewhere(a, log, alg, k, n, r, ad, a.open(alg, k, n, r, ad).value)
    {
      var p := LookupLog(log, alg, k, n, r, ad).value;
      var run :| run in log && Found(run, alg, k, n, r, ad, p);
      var j :| 0 <= j < |run.chs| && LookedUp(run, j, alg, k, n, r, ad) && p == run.chs[j];
      var i :| 0 <= i < |log| && log[i] == run;
      assert LoggedIn(a, log, i, j, alg, k, n, r, ad, p);
    }
  }

  /** No two encryptions have the same content key, salt, suite and stream id. */
  ghost predicate Distinguished(log: seq<Encryption>) {
    forall i, j :: 0 <= i < j < |log| ==> OriginOf(log[i]) != OriginOf(log[j])
  }

  lemma ToyDerives(origins: seq<Origin>, runs: seq<Run>, ts: seq<ToyWrap>, salt: bytes, cek: bytes, suiteID: byte, streamID: bytes)
    ensures DeriveMessageKey(ToyWorld(origins, runs, ts), salt, cek, suiteID, streamID)
            == ToyKey(origins, (cek, salt, MessageKeyInfo(suiteID, streamID)))
  {
    hide ToyKey, MessageKeyInfo;
  }

  lemma ToyContexts(origins: seq<Origin>, runs: seq<Run>, ts: seq<ToyWrap>, log: seq<Encryption>)
    requires AllValid(log) && Distinguished(log) && |origins| < TWO_64
    requires forall i :: 0 <= i < |log| ==> OriginOf(log[i]) in origins
    requires runs == Runs(ToyWorld(origins, runs, ts), log)
    ensures Separate(runs)
    ensures |runs| == |log| && forall i, j :: 0 <= i < j < |log| ==> runs[i].c != runs[j].c
    ensures forall i :: 0 <= i < |log| ==> KeyUnique(ToyWorld(origins, runs, ts), EVERY_KEY, log[i].h, log[i].cek)
  {
    hide ToyKey, MessageKeyInfo, ToyWorld, KeyUnique;
    var a := ToyWorld(origins, runs, ts);
    forall i, j | 0 <= i < |log| && 0 <= j < |log| && runs[i].c == runs[j].c
      ensures i == j
    {
      var e, f := log[i], log[j];
      ToyDerives(origins, runs, ts, e.h.streamSalt, e.cek, e.h.suiteID, e.h.streamID);
      ToyDerives(origins, runs, ts, f.h.streamSalt, f.cek, f.h.suiteID, f.h.streamID);
      ToyKeyUnique(origins, OriginOf(e), OriginOf(f));
    }
    forall i | 0 <= i < |log|
      ensures KeyUnique(a, EVERY_KEY, log[i].h, log[i].cek)
      ensures runs[i].c.Valid() && runs[i].Counted()
    {
      assert log[i].Valid();
      ToyKeysUnique(origins, runs, ts, log[i]);
    }
  }

  lemma ToyKeysUnique(origins: seq<Origin>, runs: seq<Run>, ts: seq<ToyWrap>, e: Encryption)
    requires |origins| < TWO_64 && OriginOf(e) in origins
    ensures KeyUnique(ToyWorld(origins, runs, ts), EVERY_KEY, e.h, e.cek)
  {
    hide ToyKey, MessageKeyInfo, ToyWorld, DeriveMessageKey;
    var a, h := ToyWorld(origins, runs, ts), e.h;
    forall salt: bytes, cek': bytes
      | DeriveMessageKey(a, salt, cek', h.suiteID, h.streamID) == DeriveMessageKey(a, h.streamSalt, e.cek, h.suiteID, h.streamID)
      ensures salt == h.streamSalt && cek' == e.cek
    {
      ToyDerives(origins, runs, ts, salt, cek', h.suiteID, h.streamID);
      ToyDerives(origins, runs, ts, h.streamSalt, e.cek, h.suiteID, h.streamID);
      ToyKeyUnique(origins, OriginOf(e), (cek', salt, MessageKeyInfo(h.suiteID, h.streamID)));
    }
  }

  ghost const EVERY_KEY: iset<bytes> := iset cek: bytes | true

  lemma ToyWorldHolds(log: seq<Encryption>, origins: seq<Origin>, ts: seq<ToyWrap>) returns (a: Primitives)
    requires AllValid(log) && Distinguished(log) && |origins| < TWO_64
    requires forall i :: 0 <= i < |log| ==> OriginOf(log[i]) in origins
    ensures World(a, EVERY_KEY, log) && a == ToyWorld(origins, Runs(a, log), ts)
  {
    hide ToyWorld, OnlyLogged, KeyUnique, WellLogged, Separate, Runs, MessageKeys;
    var runs := Runs(ToyWorld(origins, [], ts), log);
    a := ToyWorld(origins, runs, ts);
    SameRuns(origins, [], runs, ts, log);
    ToyContexts(origins, runs, ts, log);
    ToyOnlyLogged(origins, runs, ts, MessageKeys(a, EVERY_KEY));
    ToyWellLogged(origins, runs, ts);
  }

  /** Contexts and chunks depend on the key derivation alone. */
  lemma SameRuns(origins: seq<Origin>, runs: seq<Run>, runs': seq<Run>, ts: seq<ToyWrap>, log: seq<Encryption>)
    requires AllValid(log)
    ensures Runs(ToyWorld(origins, runs, ts), log) == Runs(ToyWorld(origins, runs', ts), log)
  {
    hide ToyWorld, DeriveMessageKey;
    forall i | 0 <= i < |log|
      ensures log[i].Valid() && RunOf(ToyWorld(origins, runs, ts), log[i]) == RunOf(ToyWorld(origins, runs', ts), log[i])
    {
      var e := log[i];
      assert log[i].Valid();
      ToyDerives(origins, runs, ts, e.h.streamSalt, e.cek, e.h.suiteID, e.h.streamID);
      ToyDerives(origins, runs', ts, e.h.streamSalt, e.cek, e.h.suiteID, e.h.streamID);
    }
  }

  lemma ToyWellLogged(origins: seq<Origin>, log: seq<Run>, ts: seq<ToyWrap>)
    requires Separate(log)
    requires forall i, j :: 0 <= i < j < |log| ==> log[i].c != log[j].c
    ensures WellLogged(ToyWorld(origins, log, ts), log)
  {
    hide ToyWorld, OpensSealedAt;
    var a := ToyWorld(origins, log, ts);
    forall i | 0 <= i < |log|
      ensures log[i].c.Valid() && log[i].Counted() && OpensSealed(a, log[i])
    {
      assert log[i] in log;
      forall k | 0 <= k < |log[i].chs|
        ensures OpensSealedAt(a, log[i], k)
      {
        ToyOpensOwn(origins, log, ts, log[i], k);
      }
    }
  }

  // ---------- wrapped keys ----------

  function WrapOrigin(k: KemScheme, r: Recipient, ek: bytes): Origin
    requires r.Valid()
  {
    var (pk, sk) := k.derive(r.suiteID, r.seed);
    (k.decapsulate(r.suiteID, sk, ek), Zeros(32), KemInfo(r.suiteID, ek, pk))
  }

  function PublicKey(k: KemScheme, r: Recipient): (byte, bytes) {
    (r.suiteID, k.derive(r.suiteID, r.seed).0)
  }

  /** The wraps for one recipient. */
  function WrapsOf(ts: seq<ToyWrap>, r: Recipient): (ws: seq<Wrap>)
    ensures forall w :: w in ws <==> exists t :: t in ts && t.r == r && t.w == w
  {
    if ts == [] then []
    else if ts[0].r == r then
      assert ts[0] in ts;
      [ts[0].w] + WrapsOf(ts[1..], r)
    else WrapsOf(ts[1..], r)
  }

  /** A wrap that a recipient can open, with a place for its key. */
  ghost predicate Keyed(origins: seq<Origin>, k: KemScheme, t: ToyWrap) {
    && t.r.Valid() && t.r.Fits(t.w.env.encapsulatedKey) && |t.w.aad| == CEK_WRAP_AAD_LEN
    && var x := WrapOrigin(k, t.r, t.w.env.encapsulatedKey);
       x in origins && t.key == ToyKey(origins, x)
  }

  /** Recipients are told apart by suite and public key, and no envelope was wrapped twice with different keys
      in it. */
  ghost predicate WrapsDistinguished(k: KemScheme, ts: seq<ToyWrap>, r: Recipient) {
    && (forall t :: t in ts && PublicKey(k, t.r) == PublicKey(k, r) ==> t.r == r)
    && (forall t, u :: t in ts && u in ts && t.r == u.r && t.w.env == u.w.env && t.w.aad == u.w.aad ==> t.w.cek == u.w.cek)
  }

  lemma ToyWrapKey(origins: seq<Origin>, log: seq<Run>, ts: seq<ToyWrap>, k: KemScheme, r: Recipient, ek: bytes)
    requires r.Valid()
    ensures WrapKey(ToyWorld(origins, log, ts), k, r, ek) == ToyKey(origins, WrapOrigin(k, r, ek))
  {
    hide KemInfo, ToyKey;
  }

  lemma ToyWrapOpens(origins: seq<Origin>, log: seq<Run>, ts: seq<ToyWrap>, k: KemScheme, r: Recipient, env: KemEnvelope, aad: bytes)
    requires r.Valid() && |aad| == CEK_WRAP_AAD_LEN
    ensures OpenWrap(ToyWorld(origins, log, ts), k, r, env, aad)
            == Unwrap(ts, ToyKey(origins, WrapOrigin(k, r, env.encapsulatedKey)), env.nonce, env.ciphertext, aad)
  {
    ToyWrapKey(origins, log, ts, k, r, env.encapsulatedKey);
    hide WrapKey, WrapOrigin, ToyKey, Unwrap;
  }

  /** Equal wrap keys mean the same recipient and the same encapsulated key. */
  lemma WrapOriginPins(origins: seq<Origin>, k: KemScheme, t: ToyWrap, r: Recipient, ek: bytes)
    requires |origins| < TWO_64 && Keyed(origins, k, t) && r.Valid() && r.Fits(ek)
    requires t.key == ToyKey(origins, WrapOrigin(k, r, ek))
    ensures PublicKey(k, t.r) == PublicKey(k, r) && t.w.env.encapsulatedKey == ek
  {
    hide ToyKey, KemInfo;
    ToyKeyUnique(origins, WrapOrigin(k, t.r, t.w.env.encapsulatedKey), WrapOrigin(k, r, ek));
    KemInfoInjective(t.r.suiteID, t.w.env.encapsulatedKey, PublicKey(k, t.r).1, r.suiteID, ek, PublicKey(k, r).1);
  }

  lemma ToyOnlyWraps(origins: seq<Origin>, log: seq<Run>, ts: seq<ToyWrap>, k: KemScheme, r: Recipient)
    requires |origins| < TWO_64 && r.Valid() && WrapsDistinguished(k, ts, r)
    requires forall t :: t in ts ==> Keyed(origins, k, t)
    ensures OnlyWraps(ToyWorld(origins, log, ts), k, r, WrapsOf(ts, r))
  {
    hide ToyKey, ToyWorld, WrapKey, OpenWrap, WrapOrigin, PublicKey, Unwrap;
    var a, ws := ToyWorld(origins, log, ts), WrapsOf(ts, r);
    forall env: KemEnvelope, aad: bytes | r.Fits(env.encapsulatedKey) && |aad| == CEK_WRAP_AAD_LEN && OpenWrap(a, k, r, env, aad).Some?
      ensures exists w :: w in ws && WrappedAs(a, k, r, w, env, aad, OpenWrap(a, k, r, env, aad).value)
    {
      ToyWrapOpens(origins, log, ts, k, r, env, aad);
      var key, cek := ToyKey(origins, WrapOrigin(k, r, env.encapsulatedKey)), OpenWrap(a, k, r, env, aad).value;
      var t :| t in ts && Unwraps(t, key, env.nonce, env.ciphertext, aad) && cek == t.w.cek;
      WrapOriginPins(origins, k, t, r, env.encapsulatedKey);
      assert t.w in ws && WrappedAs(a, k, r, t.w, env, aad, cek);
    }
    forall w | w in ws
      ensures r.Fits(w.env.encapsulatedKey) && OpenWrap(a, k, r, w.env, w.aad) == Some(w.cek)
    {
      var t :| t in ts && t.r == r && t.w == w;
      assert Keyed(origins, k, t) && Unwraps(t, t.key, w.env.nonce, w.env.ciphertext, w.aad);
      ToyWrapOpens(origins, log, ts, k, r, w.env, w.aad);
      var cek := Unwrap(ts, t.key, w.env.nonce, w.env.ciphertext, w.aad).value;
      var u :| u in ts && Unwraps(u, t.key, w.env.nonce, w.env.ciphertext, w.aad) && cek == u.w.cek;
      WrapOriginPins(origins, k, u, r, w.env.encapsulatedKey);
      assert u.w.env == w.env;
    }
  }

  lemma ToyWrapKeysUnique(origins: seq<Origin>, log: seq<Run>, ts: seq<ToyWrap>, k: KemScheme, r: Recipient)
    requires |origins| < TWO_64 && r.Valid()
    requires forall t :: t in ts ==> Keyed(origins, k, t)
    ensures WrapKeysUnique(ToyWorld(origins, log, ts), k, r, WrapsOf(ts, r))
  {
    hide ToyKey, ToyWorld, WrapKey, WrapOrigin, PublicKey;
    var a, ws := ToyWorld(origins, log, ts), WrapsOf(ts, r);
    forall w, ek | w in ws && r.Fits(ek) && WrapKey(a, k, r, ek) == WrapKey(a, k, r, w.env.encapsulatedKey)
      ensures ek == w.env.encapsulatedKey
    {
      var t :| t in ts && t.r == r && t.w == w;
      assert Keyed(origins, k, t);
      ToyWrapKey(origins, log, ts, k, r, ek);
      ToyWrapKey(origins, log, ts, k, r, w.env.encapsulatedKey);
      WrapOriginPins(origins, k, t, r, ek);
    }
  }

  /** Where the keys of the log and of the wraps come from. */
  function Origins(log: seq<Encryption>, k: KemScheme, rs: seq<(Recipient, Wrap)>): seq<Origin>
    requires forall i :: 0 <= i < |rs| ==> rs[i].0.Valid()
  {
    seq(|log|, i requires 0 <= i < |log| => OriginOf(log[i]))
    + seq(|rs|, i requires 0 <= i < |rs| => WrapOrigin(k, rs[i].0, rs[i].1.env.encapsulatedKey))
  }

  function KeyWraps(origins: seq<Origin>, k: KemScheme, rs: seq<(Recipient, Wrap)>): seq<ToyWrap>
    requires forall i :: 0 <= i < |rs| ==> rs[i].0.Valid()
  {
    seq(|rs|, i requires 0 <= i < |rs| =>
      ToyWrap(rs[i].0, ToyKey(origins, WrapOrigin(k, rs[i].0, rs[i].1.env.encapsulatedKey)), rs[i].1))
  }

  /** Whatever was encrypted, finished or not, under different content keys, salts or streams, and whatever keys
      were wrapped for whichever recipients: there are primitives under which just that opens, even for those
      who know every content key, and each recipient opens exactly its own envelopes. */
  lemma WorldInstance(log: seq<Encryption>, k: KemScheme, rs: seq<(Recipient, Wrap)>) returns (a: Primitives, ts: seq<ToyWrap>)
    requires AllValid(log) && Distinguished(log) && |log| + |rs| < TWO_64
    requires forall i :: 0 <= i < |rs| ==>
               rs[i].0.Valid() && rs[i].0.Fits(rs[i].1.env.encapsulatedKey) && |rs[i].1.aad| == CEK_WRAP_AAD_LEN
    ensures World(a, EVERY_KEY, log)
    ensures |ts| == |rs| && forall i :: 0 <= i < |rs| ==> ts[i].r == rs[i].0 && ts[i].w == rs[i].1
    ensures forall r: Recipient :: r.Valid() && WrapsDistinguished(k, ts, r) ==>
              RecoversExactly(LocalSeed(a, k, r.seed, r.suiteID), WrapsOf(ts, r))
  {
    hide ToyKey, World, ToyWorld, WrapOrigin, Runs, OnlyWraps, WrapKeysUnique, Distinguished, RecoversExactly,
         WrapsDistinguished, WrapsOf, OriginOf;
    var origins := Origins(log, k, rs);
    ts := KeyWraps(origins, k, rs);
    forall i | 0 <= i < |log|
      ensures OriginOf(log[i]) in origins
    {
      assert origins[i] == OriginOf(log[i]);
    }
    forall t | t in ts
      ensures Keyed(origins, k, t)
    {
      var i :| 0 <= i < |rs| && ts[i] == t;
      assert origins[|log| + i] == WrapOrigin(k, t.r, t.w.env.encapsulatedKey);
    }
    a := ToyWorldHolds(log, origins, ts);
    forall r: Recipient | r.Valid() && WrapsDistinguished(k, ts, r)
      ensures RecoversExactly(LocalSeed(a, k, r.seed, r.suiteID), WrapsOf(ts, r))
    {
      ToyOnlyWraps(origins, Runs(a, log), ts, k, r);
      ToyWrapKeysUnique(origins, Runs(a, log), ts, k, r);
      LocalSeedExactly(a, k, r, WrapsOf(ts, r));
    }
  }

  /** Two recipients with different public keys, and an envelope for each: each opens its own and only that. */
  lemma TwoRecipientsInstance(log: seq<Encryption>, k: KemScheme, r: Recipient, w: Wrap, r': Recipient, w': Wrap)
    returns (a: Primitives)
    requires AllValid(log) && Distinguished(log) && |log| < TWO_32
    requires r.Valid() && r.Fits(w.env.encapsulatedKey) && |w.aad| == CEK_WRAP_AAD_LEN
    requires r'.Valid() && r'.Fits(w'.env.encapsulatedKey) && |w'.aad| == CEK_WRAP_AAD_LEN
    requires PublicKey(k, r) != PublicKey(k, r')
    ensures World(a, EVERY_KEY, log)
    ensures RecoversExactly(LocalSeed(a, k, r.seed, r.suiteID), [w])
    ensures RecoversExactly(LocalSeed(a, k, r'.seed, r'.suiteID), [w'])
  {
    hide World, RecoversExactly, PublicKey, Distinguished, AllValid;
    var rs, ts := [(r, w), (r', w')], [];
    a, ts := WorldInstance(log, k, rs);
    assert ts == [ts[0], ts[1]] && ts[1..] == [ts[1]];
    assert WrapsOf([ts[1]], r) == [] && WrapsOf([ts[1]], r') == [w'];
    assert WrapsOf(ts, r) == [w] && WrapsOf(ts, r') == [w'];
    assert WrapsDistinguished(k, ts, r) && WrapsDistinguished(k, ts, r');
  }

  lemma KemInstance() returns (k: KemScheme)
    ensures Correct(k)
  {
    k := KemScheme(
      (suite, seed) => (seed, seed),
      (suite, pk) => Some(pk),
      (suite, pk, rnd) => (match MlKemCiphertextLen(suite) case Some(n) => Zeros(n) case None => [], pk),
      (suite, sk, ct) => sk);
  }
}
