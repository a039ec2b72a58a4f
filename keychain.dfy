/** Wallet keys over scalars (circuit-types/src/keychain.rs): identification
    keys wrapping one scalar, and non-native keys held as `KEY_WORDS`
    scalar words of 31 little-endian bytes each, with their conversions to
    and from big integers, serde and ed25519 public keys. Big integers are
    naturals; their byte strings are little-endian as in `num-bigint`. */
module Keychain {
  import opened Wrappers
  import opened Scalars
  import opened Padding

  type Byte = x: nat | x < 256

  /** The number of keys held in a wallet's keychain. */
  const NumKeys: nat := 4
  /** The bytes of a scalar that carry a key word. */
  const ScalarMaxBytes: nat := 31
  /** The words of a root (signing) key. */
  const RootKeyWords: nat := 2
  /** The length of `Scalar::to_bytes` and of an ed25519 public key. */
  const ScalarBytes: nat := 32

  function Pow256(n: nat): (r: nat)
    ensures r >= 1
  {
    if n == 0 then 1 else 256 * Pow256(n - 1)
  }

  function Zeros(n: nat): (r: seq<Byte>)
    ensures |r| == n && forall i | 0 <= i < n :: r[i] == 0
  {
    seq(n, _ => 0)
  }

  function ZeroWords(n: nat): (r: seq<Scalar>)
    ensures |r| == n && forall i | 0 <= i < n :: r[i] == 0
  {
    seq(n, _ => 0)
  }

  /** `BigUint::from_bytes_le`. */
  function FromBytesLe(bs: seq<Byte>): nat
  {
    if bs == [] then 0 else bs[0] + 256 * FromBytesLe(bs[1..])
  }

  /** A value of `n` bytes is below `256^n`. */
  lemma {:induction false} FromBytesBound(bs: seq<Byte>)
    ensures FromBytesLe(bs) < Pow256(|bs|)
  {
    if bs != [] {
      FromBytesBound(bs[1..]);
    }
  }

  /** `BigUint::to_bytes_le`: the shortest little-endian encoding, which is
      `[0]` for zero. */
  function ToBytesLe(v: nat): (r: seq<Byte>)
    ensures 1 <= |r|
    ensures v != 0 ==> r[|r| - 1] != 0
    decreases v
  {
    if v < 256 then [v] else [v % 256] + ToBytesLe(v / 256)
  }

  /** A fixed-width little-endian encoding: the `n` low bytes of `v`. */
  function FixedLe(v: nat, n: nat): (r: seq<Byte>)
    ensures |r| == n
  {
    if n == 0 then [] else [v % 256] + FixedLe(v / 256, n - 1)
  }

  function Concat(chunks: seq<seq<Byte>>): seq<Byte>
  {
    if chunks == [] then [] else chunks[0] + Concat(chunks[1..])
  }

  /** `bytes.chunks(SCALAR_MAX_BYTES)`: full chunks, the last one possibly
      shorter, none empty. */
  function Chunks(bs: seq<Byte>): (r: seq<seq<Byte>>)
    ensures forall i | 0 <= i < |r| :: 1 <= |r[i]| <= ScalarMaxBytes
    ensures |bs| <= ScalarMaxBytes * |r| < |bs| + ScalarMaxBytes
    ensures Concat(r) == bs
    decreases |bs|
  {
    if bs == [] then []
    else if |bs| <= ScalarMaxBytes then
      assert Concat([bs]) == bs + Concat([]);
      [bs]
    else
      var rest := Chunks(bs[ScalarMaxBytes..]);
      assert ([bs[..ScalarMaxBytes]] + rest)[1..] == rest;
      [bs[..ScalarMaxBytes]] + rest
  }

  /** `Scalar::from_bytes_mod_order` on a 32-byte buffer. */
  function ScalarFromBytesModOrder(buf: seq<Byte>): Scalar
  {
    FromBytesLe(buf) % ScalarOrder
  }

  /** The word one chunk becomes: the chunk zero-padded to a scalar buffer. */
  function ChunkWord(chunk: seq<Byte>): Scalar
  {
    ScalarFromBytesModOrder(PadTake(chunk, 0, ScalarBytes))
  }

  function ChunkWords(chunks: seq<seq<Byte>>): (r: seq<Scalar>)
    ensures |r| == |chunks|
  {
    if chunks == [] then [] else [ChunkWord(chunks[0])] + ChunkWords(chunks[1..])
  }

  /** `split_biguint_into_words`: one word per 31-byte chunk of the value,
      then zero words, `keyWords` in all. */
  function SplitWords(v: nat, keyWords: nat): (r: seq<Scalar>)
    ensures |r| == keyWords
  {
    PadTake(ChunkWords(Chunks(ToBytesLe(v))), 0, keyWords)
  }

  /** `word.to_bytes()[..SCALAR_MAX_BYTES]`. */
  function WordBytes(w: Scalar): (r: seq<Byte>)
    ensures |r| == ScalarMaxBytes
  {
    FixedLe(w, ScalarBytes)[..ScalarMaxBytes]
  }

  function CombinedBytes(words: seq<Scalar>): (r: seq<Byte>)
    ensures |r| == ScalarMaxBytes * |words|
  {
    if words == [] then [] else WordBytes(words[0]) + CombinedBytes(words[1..])
  }

  /** `combine_words_into_biguint`. */
  function CombineWords(words: seq<Scalar>): nat
  {
    FromBytesLe(CombinedBytes(words))
  }

  /** The loop of `split_biguint_into_words`. */
  method SplitBigUintIntoWords(v: nat, keyWords: nat) returns (r: seq<Scalar>)
    ensures r == SplitWords(v, keyWords)
  {
    var words: seq<Scalar> := [];
    var valBytesLe := ToBytesLe(v);
    var chunks := Chunks(valBytesLe);
    var i := 0;
    while i < |chunks|
      invariant 0 <= i <= |chunks|
      invariant words == ChunkWords(chunks[..i])
    {
      var bytes := PadTake(chunks[i], 0, ScalarBytes);
      var scalar := ScalarFromBytesModOrder(bytes);
      ChunkWordsSnoc(chunks[..i], chunks[i]);
      assert chunks[..i + 1] == chunks[..i] + [chunks[i]];
      words := words + [scalar];
      i := i + 1;
    }
    assert chunks[..i] == chunks;
    r := PadTake(words, 0, keyWords);
  }

  /** The loop of `combine_words_into_biguint`. */
  method CombineWordsIntoBigUint(keyWords: seq<Scalar>) returns (r: nat)
    ensures r == CombineWords(keyWords)
  {
    var bytes: seq<Byte> := [];
    var i := 0;
    while i < |keyWords|
      invariant 0 <= i <= |keyWords|
      invariant bytes == CombinedBytes(keyWords[..i])
    {
      var wordBytes := FixedLe(keyWords[i], ScalarBytes)[..ScalarMaxBytes];
      CombinedBytesSnoc(keyWords[..i], keyWords[i]);
      assert keyWords[..i + 1] == keyWords[..i] + [keyWords[i]];
      bytes := bytes + wordBytes;
      i := i + 1;
    }
    assert keyWords[..i] == keyWords;
    r := FromBytesLe(bytes);
  }

  lemma {:induction false} ChunkWordsSnoc(chunks: seq<seq<Byte>>, c: seq<Byte>)
    ensures ChunkWords(chunks + [c]) == ChunkWords(chunks) + [ChunkWord(c)]
  {
    if chunks != [] {
      assert (chunks + [c])[1..] == chunks[1..] + [c];
      ChunkWordsSnoc(chunks[1..], c);
    }
  }

  lemma {:induction false} CombinedBytesSnoc(words: seq<Scalar>, w: Scalar)
    ensures CombinedBytes(words + [w]) == CombinedBytes(words) + WordBytes(w)
  {
    if words == [] {
      assert CombinedBytes([w]) == WordBytes(w) + CombinedBytes([]);
    } else {
      assert (words + [w])[1..] == words[1..] + [w];
      CombinedBytesSnoc(words[1..], w);
    }
  }

  // ----- byte-level facts -----

  /** Trailing zero bytes do not change a little-endian value. */
  lemma {:induction false} FromBytesZeros(bs: seq<Byte>, m: nat)
    ensures FromBytesLe(bs + Zeros(m)) == FromBytesLe(bs)
    decreases |bs| + m
  {
    if bs == [] {
      FromZeros(m);
      assert [] + Zeros(m) == Zeros(m);
    } else {
      assert (bs + Zeros(m))[1..] == bs[1..] + Zeros(m);
      FromBytesZeros(bs[1..], m);
    }
  }

  lemma FromBytesPadded(padded: seq<Byte>, bs: seq<Byte>, m: nat)
    requires padded == bs + Zeros(m)
    ensures FromBytesLe(padded) == FromBytesLe(bs)
  {
    FromBytesZeros(bs, m);
  }

  lemma {:induction false} FromZeros(m: nat)
    ensures FromBytesLe(Zeros(m)) == 0
  {
    if m > 0 {
      assert Zeros(m)[1..] == Zeros(m - 1);
      FromZeros(m - 1);
    }
  }

  /** A value of at most `n` bytes encodes in `n` bytes as itself followed
      by zeros. */
  lemma {:induction false} FixedOfFromBytes(c: seq<Byte>, n: nat)
    requires |c| <= n
    ensures FixedLe(FromBytesLe(c), n) == c + Zeros(n - |c|)
  {
    if n > 0 {
      if c == [] {
        FixedOfFromBytes([], n - 1);
        assert Zeros(n) == [0] + Zeros(n - 1);
      } else {
        var v := FromBytesLe(c);
        assert v % 256 == c[0] && v / 256 == FromBytesLe(c[1..]);
        FixedOfFromBytes(c[1..], n - 1);
        assert c == [c[0]] + c[1..];
      }
    }
  }

  lemma {:induction false} ToBytesRoundTrip(v: nat)
    ensures FromBytesLe(ToBytesLe(v)) == v
    decreases v
  {
    if v >= 256 {
      ToBytesRoundTrip(v / 256);
      assert ([v % 256] + ToBytesLe(v / 256))[1..] == ToBytesLe(v / 256);
    }
  }

  lemma {:induction false} Pow256Mono(m: nat, n: nat)
    requires m <= n
    ensures Pow256(m) <= Pow256(n)
    decreases n
  {
    if m < n {
      Pow256Mono(m, n - 1);
    }
  }

  /** A value below `256^n` (n >= 1) takes at most `n` bytes. */
  lemma {:induction false} ToBytesLength(v: nat, n: nat)
    requires 1 <= n && v < Pow256(n)
    ensures |ToBytesLe(v)| <= n
    decreases v
  {
    assert Pow256(1) == 256;
    if v >= 256 {
      assert n >= 2;
      ToBytesLength(v / 256, n - 1);
    }
  }

  /** 2^248, the bound of a 31-byte word. */
  const WordBound: nat := 0x100_0000_0000_0000_0000_0000_0000_0000_0000_0000_0000_0000_0000_0000_0000_0000

  /** A 31-byte word is below the scalar field order, so the reduction of
      `from_bytes_mod_order` leaves it alone. */
  lemma WordBelowOrder()
    ensures Pow256(ScalarMaxBytes) == WordBound < ScalarOrder
  {
    assert Pow256(1) == 0x100;
    assert Pow256(2) == 0x10000;
    assert Pow256(3) == 0x1000000;
    assert Pow256(4) == 0x100000000;
    assert Pow256(5) == 0x10000000000;
    assert Pow256(6) == 0x1000000000000;
    assert Pow256(7) == 0x100000000000000;
    assert Pow256(8) == 0x10000000000000000;
    assert Pow256(9) == 0x1000000000000000000;
    assert Pow256(10) == 0x100000000000000000000;
    assert Pow256(11) == 0x10000000000000000000000;
    assert Pow256(12) == 0x1000000000000000000000000;
    assert Pow256(13) == 0x100000000000000000000000000;
    assert Pow256(14) == 0x10000000000000000000000000000;
    assert Pow256(15) == 0x1000000000000000000000000000000;
    assert Pow256(16) == 0x100000000000000000000000000000000;
    assert Pow256(17) == 0x10000000000000000000000000000000000;
    assert Pow256(18) == 0x1000000000000000000000000000000000000;
    assert Pow256(19) == 0x100000000000000000000000000000000000000;
    assert Pow256(20) == 0x10000000000000000000000000000000000000000;
    assert Pow256(21) == 0x1000000000000000000000000000000000000000000;
    assert Pow256(22) == 0x100000000000000000000000000000000000000000000;
    assert Pow256(23) == 0x10000000000000000000000000000000000000000000000;
    assert Pow256(24) == 0x1000000000000000000000000000000000000000000000000;
    assert Pow256(25) == 0x100000000000000000000000000000000000000000000000000;
    assert Pow256(26) == 0x10000000000000000000000000000000000000000000000000000;
    assert Pow256(27) == 0x1000000000000000000000000000000000000000000000000000000;
    assert Pow256(28) == 0x100000000000000000000000000000000000000000000000000000000;
    assert Pow256(29) == 0x10000000000000000000000000000000000000000000000000000000000;
    assert Pow256(30) == 0x1000000000000000000000000000000000000000000000000000000000000;
    assert Pow256(31) == 0x100000000000000000000000000000000000000000000000000000000000000;
  }

  lemma ReductionKeeps(x: nat)
    requires x < ScalarOrder
    ensures x % ScalarOrder == x
  {
  }

  lemma ChunkWordValue(c: seq<Byte>)
    requires |c| <= ScalarMaxBytes
    ensures ChunkWord(c) == FromBytesLe(c) < WordBound
  {
    var padded := PadTake(c, 0, ScalarBytes);
    assert padded == c + Zeros(ScalarBytes - |c|);
    FromBytesPadded(padded, c, ScalarBytes - |c|);
    var v := FromBytesLe(c);
    FromBytesBound(c);
    Pow256Mono(|c|, ScalarMaxBytes);
    WordBelowOrder();
    ReductionKeeps(v);
    assert ScalarFromBytesModOrder(padded) == v;
  }

  lemma ChunkWordBytes(c: seq<Byte>)
    requires |c| <= ScalarMaxBytes
    ensures ChunkWord(c) == FromBytesLe(c) < WordBound
    ensures WordBytes(ChunkWord(c)) == c + Zeros(ScalarMaxBytes - |c|)
  {
    ChunkWordValue(c);
    WordBytesOf(ChunkWord(c), c);
  }

  lemma WordBytesOf(w: Scalar, c: seq<Byte>)
    requires |c| <= ScalarMaxBytes && w == FromBytesLe(c)
    ensures WordBytes(w) == c + Zeros(ScalarMaxBytes - |c|)
  {
    FixedOfFromBytes(c, ScalarBytes);
    var fixed := FixedLe(w, ScalarBytes);
    assert fixed == c + Zeros(ScalarBytes - |c|);
    assert fixed[..ScalarMaxBytes] == c + Zeros(ScalarMaxBytes - |c|);
  }

  /** The words of the chunks of `bs` give back `bs`, zero-padded to whole
      words. */
  lemma {:induction false} CombinedChunks(bs: seq<Byte>)
    ensures CombinedBytes(ChunkWords(Chunks(bs))) == bs + Zeros(ScalarMaxBytes * |Chunks(bs)| - |bs|)
    decreases |bs|
  {
    if bs == [] {
    } else if |bs| <= ScalarMaxBytes {
      ChunkWordBytes(bs);
      assert ChunkWords([bs]) == [ChunkWord(bs)];
      assert CombinedBytes([ChunkWord(bs)]) == WordBytes(ChunkWord(bs)) + CombinedBytes([]);
    } else {
      var head, tail := bs[..ScalarMaxBytes], bs[ScalarMaxBytes..];
      CombinedChunksCons(bs);
      CombinedChunks(tail);
      var z := ScalarMaxBytes * |Chunks(tail)| - |tail|;
      assert head + (tail + Zeros(z)) == bs + Zeros(z);
    }
  }

  /** A string longer than one chunk: its first chunk's bytes, then those
      of the rest. */
  lemma CombinedChunksCons(bs: seq<Byte>)
    requires |bs| > ScalarMaxBytes
    ensures |Chunks(bs)| == 1 + |Chunks(bs[ScalarMaxBytes..])|
    ensures CombinedBytes(ChunkWords(Chunks(bs))) == bs[..ScalarMaxBytes] + CombinedBytes(ChunkWords(Chunks(bs[ScalarMaxBytes..])))
  {
    var head, tail := bs[..ScalarMaxBytes], bs[ScalarMaxBytes..];
    var cs := Chunks(bs);
    assert cs[0] == head && cs[1..] == Chunks(tail);
    var ws := ChunkWords(cs);
    assert ws[0] == ChunkWord(head) && ws[1..] == ChunkWords(Chunks(tail));
    ChunkWordBytes(head);
    assert Zeros(0) == [];
  }

  /** Whole chunks at the front of `bs` give back exactly those bytes. */
  lemma {:induction false} CombinedLeadingChunks(bs: seq<Byte>, j: nat)
    requires ScalarMaxBytes * j <= |bs|
    ensures j <= |Chunks(bs)|
    ensures CombinedBytes(ChunkWords(Chunks(bs))[..j]) == bs[..ScalarMaxBytes * j]
    decreases j
  {
    var cs := Chunks(bs);
    if j == 0 {
      assert ChunkWords(cs)[..0] == [];
    } else if |bs| <= ScalarMaxBytes {
      ChunkWordBytes(bs);
      assert ChunkWords([bs])[..1] == [ChunkWord(bs)];
      assert CombinedBytes([ChunkWord(bs)]) == WordBytes(ChunkWord(bs)) + CombinedBytes([]);
    } else {
      var head, tail := bs[..ScalarMaxBytes], bs[ScalarMaxBytes..];
      assert cs == [head] + Chunks(tail);
      var ws := ChunkWords(cs);
      assert ws == [ChunkWord(head)] + ChunkWords(Chunks(tail));
      CombinedLeadingChunks(tail, j - 1);
      var front := ws[..j];
      assert front[0] == ChunkWord(head) && front[1..] == ChunkWords(Chunks(tail))[..j - 1];
      ChunkWordBytes(head);
      assert bs[..ScalarMaxBytes * j] == head + tail[..ScalarMaxBytes * (j - 1)];
    }
  }

  lemma {:induction false} CombinedAppend(xs: seq<Scalar>, ys: seq<Scalar>)
    ensures CombinedBytes(xs + ys) == CombinedBytes(xs) + CombinedBytes(ys)
  {
    if xs != [] {
      assert (xs + ys)[1..] == xs[1..] + ys;
      CombinedAppend(xs[1..], ys);
    } else {
      assert xs + ys == ys;
    }
  }

  lemma {:induction false} CombinedZeroWords(m: nat)
    ensures CombinedBytes(ZeroWords(m)) == Zeros(ScalarMaxBytes * m)
  {
    if m > 0 {
      var zs := ZeroWords(m);
      assert zs[0] == 0 && zs[1..] == ZeroWords(m - 1);
      CombinedZeroWords(m - 1);
      FixedOfFromBytes([], ScalarBytes);
      assert WordBytes(0) == Zeros(ScalarMaxBytes);
    }
  }

  // ----- properties of the conversions -----

  /** Splitting always yields `keyWords` words, each a 31-byte value. */
  lemma {:induction false} SplitWordsFit(v: nat, keyWords: nat)
    ensures |SplitWords(v, keyWords)| == keyWords
    ensures forall i | 0 <= i < keyWords :: SplitWords(v, keyWords)[i] < WordBound
  {
    var cs := Chunks(ToBytesLe(v));
    forall i | 0 <= i < |cs|
      ensures ChunkWords(cs)[i] < WordBound
    {
      ChunkWordsAt(cs, i);
      ChunkWordBytes(cs[i]);
    }
  }

  lemma {:induction false} ChunkWordsAt(cs: seq<seq<Byte>>, i: nat)
    requires i < |cs|
    ensures ChunkWords(cs)[i] == ChunkWord(cs[i])
  {
    if i > 0 {
      ChunkWordsAt(cs[1..], i - 1);
    }
  }

  /** Combining the split words gives the value back whenever it fits in
      `31 * keyWords` bytes: the words carry the value's bytes, chunk by
      chunk, followed by zero bytes. */
  lemma {:induction false} CombineSplit(v: nat, keyWords: nat)
    requires |ToBytesLe(v)| <= ScalarMaxBytes * keyWords
    ensures CombineWords(SplitWords(v, keyWords)) == v
  {
    PaddedChunkBytes(ToBytesLe(v), keyWords);
    FromBytesZeros(ToBytesLe(v), ScalarMaxBytes * keyWords - |ToBytesLe(v)|);
    ToBytesRoundTrip(v);
  }

  /** The bytes of the padded chunk words of a byte string that fits: the
      string itself, then zeros. */
  lemma {:induction false} PaddedChunkBytes(bs: seq<Byte>, keyWords: nat)
    requires |bs| <= ScalarMaxBytes * keyWords
    ensures CombinedBytes(PadTake(ChunkWords(Chunks(bs)), 0, keyWords)) == bs + Zeros(ScalarMaxBytes * keyWords - |bs|)
  {
    var ws := ChunkWords(Chunks(bs));
    var k := |ws|;
    assert k <= keyWords;
    var zs := ZeroWords(keyWords - k);
    PadWithZeroWords(ws, keyWords);
    CombinedAppend(ws, zs);
    CombinedChunks(bs);
    CombinedZeroWords(keyWords - k);
    ZerosJoined(CombinedBytes(ws + zs), CombinedBytes(ws), CombinedBytes(zs), bs,
                ScalarMaxBytes * k - |bs|, ScalarMaxBytes * (keyWords - k), ScalarMaxBytes * keyWords - |bs|);
  }

  lemma PadWithZeroWords(ws: seq<Scalar>, n: nat)
    requires |ws| <= n
    ensures PadTake(ws, 0, n) == ws + ZeroWords(n - |ws|)
  {
  }

  /** Bytes followed by two runs of zeros are the bytes followed by one. */
  lemma ZerosJoined(all: seq<Byte>, front: seq<Byte>, back: seq<Byte>, bs: seq<Byte>, a: nat, b: nat, m: nat)
    requires all == front + back && front == bs + Zeros(a) && back == Zeros(b) && a + b == m
    ensures all == bs + Zeros(m)
  {
    assert Zeros(a) + Zeros(b) == Zeros(m);
  }

  /** The split words of a value that fits: one per chunk, then zeros. */
  lemma {:induction false} SplitLayout(v: nat, keyWords: nat)
    requires |ToBytesLe(v)| <= ScalarMaxBytes * keyWords
    ensures |Chunks(ToBytesLe(v))| <= keyWords
    ensures SplitWords(v, keyWords) == ChunkWords(Chunks(ToBytesLe(v))) + ZeroWords(keyWords - |Chunks(ToBytesLe(v))|)
  {
    var ws := ChunkWords(Chunks(ToBytesLe(v)));
    assert |ws| <= keyWords;
    assert PadTake(ws, 0, keyWords) == ws + ZeroWords(keyWords - |ws|);
  }

  /** A value wider than `31 * keyWords` bytes loses its high bytes: only
      the first `keyWords` chunks survive. */
  lemma CombineSplitTruncates(v: nat, keyWords: nat)
    requires |ToBytesLe(v)| > ScalarMaxBytes * keyWords
    ensures CombineWords(SplitWords(v, keyWords)) == FromBytesLe(ToBytesLe(v)[..ScalarMaxBytes * keyWords])
    ensures CombineWords(SplitWords(v, keyWords)) < Pow256(ScalarMaxBytes * keyWords)
  {
    var bs := ToBytesLe(v);
    CombinedLeadingChunks(bs, keyWords);
    assert SplitWords(v, keyWords) == ChunkWords(Chunks(bs))[..keyWords];
    FromBytesBound(bs[..ScalarMaxBytes * keyWords]);
  }

  /** The value zero splits into all-zero words. */
  lemma SplitZero(keyWords: nat)
    ensures SplitWords(0, keyWords) == ZeroWords(keyWords)
  {
    assert ToBytesLe(0) == [0];
    assert Chunks([0]) == [[0]];
    ChunkWordBytes([0]);
    assert ChunkWords([[0]]) == [0];
  }

  // ----- key types -----

  /** `PublicIdentificationKey`: a scalar, converted both ways by `From`. */
  datatype PublicIdentificationKey = PublicIdentificationKey(key: Scalar)

  /** `SecretIdentificationKey`: a scalar, converted both ways by `From`. */
  datatype SecretIdentificationKey = SecretIdentificationKey(key: Scalar)

  /** `NonNativeKey<KEY_WORDS>`: `KEY_WORDS` scalar words. */
  datatype NonNativeKey = NonNativeKey(keyWords: seq<Scalar>)

  type PublicSigningKey = NonNativeKey
  type SecretSigningKey = NonNativeKey

  /** `PublicKeyChain`. */
  datatype PublicKeyChain = PublicKeyChain(pkRoot: PublicSigningKey, pkMatch: PublicIdentificationKey)

  function PublicIdFromScalar(s: Scalar): (k: PublicIdentificationKey)
    ensures k.key == s
  {
    PublicIdentificationKey(s)
  }

  function SecretIdFromScalar(s: Scalar): (k: SecretIdentificationKey)
    ensures k.key == s
  {
    SecretIdentificationKey(s)
  }

  /** `From<Scalar>` and `From<..> for Scalar` are mutual inverses for both
      identification keys. */
  lemma IdentificationKeyConversions(s: Scalar, pk: PublicIdentificationKey, sk: SecretIdentificationKey)
    ensures PublicIdFromScalar(s).key == s && PublicIdFromScalar(pk.key) == pk
    ensures SecretIdFromScalar(s).key == s && SecretIdFromScalar(sk.key) == sk
  {
  }

  /** `Default`: all words zero. */
  function DefaultKey(keyWords: nat): (k: NonNativeKey)
    ensures |k.keyWords| == keyWords && forall i | 0 <= i < keyWords :: k.keyWords[i] == 0
  {
    NonNativeKey(ZeroWords(keyWords))
  }

  /** `From<&BigUint>`. */
  function KeyFromBigUint(v: nat, keyWords: nat): (k: NonNativeKey)
    ensures |k.keyWords| == keyWords
  {
    NonNativeKey(SplitWords(v, keyWords))
  }

  /** `From<&NonNativeKey> for BigUint`. */
  function BigUintFromKey(k: NonNativeKey): nat
  {
    CombineWords(k.keyWords)
  }

  /** Serde goes through the big integer: `serialize` writes the combined
      value (its hex rendering is not part of this model) and
      `deserialize` splits it again. */
  function SerializeKey(k: NonNativeKey): nat
  {
    BigUintFromKey(k)
  }

  function DeserializeKey(v: nat, keyWords: nat): NonNativeKey
  {
    KeyFromBigUint(v, keyWords)
  }

  /** A key built from a big integer that fits survives serde, and the
      zero value gives the default key. */
  lemma KeySerdeRoundTrip(v: nat, keyWords: nat)
    requires |ToBytesLe(v)| <= ScalarMaxBytes * keyWords
    ensures DeserializeKey(SerializeKey(KeyFromBigUint(v, keyWords)), keyWords) == KeyFromBigUint(v, keyWords)
    ensures BigUintFromKey(KeyFromBigUint(v, keyWords)) == v
    ensures KeyFromBigUint(0, keyWords) == DefaultKey(keyWords)
  {
    CombineSplit(v, keyWords);
    SplitZero(keyWords);
  }

  // ----- ed25519 public keys -----

  /** An ed25519 public key: its 32-byte compressed encoding. */
  datatype DalekKey = DalekKey(bytes: seq<Byte>)

  /** `PublicKey::from_bytes`: exactly 32 bytes that decompress to a curve
      point; whether they do is the parameter `decompresses`. */
  function DalekFromBytes(bs: seq<Byte>, decompresses: seq<Byte> -> bool): (r: Option<DalekKey>)
    ensures r.Some? <==> |bs| == ScalarBytes && decompresses(bs)
    ensures r.Some? ==> r.value.bytes == bs
  {
    if |bs| == ScalarBytes && decompresses(bs) then Some(DalekKey(bs)) else None
  }

  /** `From<DalekKey> for NonNativeKey`. */
  function KeyFromDalek(key: DalekKey, keyWords: nat): NonNativeKey
  {
    KeyFromBigUint(FromBytesLe(key.bytes), keyWords)
  }

  /** `From<&NonNativeKey> for DalekKey` as written: the minimal
      little-endian bytes of the key go to `from_bytes(..).unwrap()`;
      `None` is the panic. */
  function DalekFromKey(k: NonNativeKey, decompresses: seq<Byte> -> bool): Option<DalekKey>
  {
    DalekFromBytes(ToBytesLe(BigUintFromKey(k)), decompresses)
  }

  /** The conversion with the bytes zero-padded to 32 before `from_bytes`. */
  function DalekFromKeyPadded(k: NonNativeKey, decompresses: seq<Byte> -> bool): Option<DalekKey>
  {
    DalekFromBytes(PadTake(ToBytesLe(BigUintFromKey(k)), 0, ScalarBytes), decompresses)
  }

  lemma {:induction false} FromBytesZeroAll(bs: seq<Byte>)
    requires FromBytesLe(bs) == 0
    ensures bs == Zeros(|bs|)
  {
    if bs != [] {
      FromBytesZeroAll(bs[1..]);
      assert bs == [bs[0]] + bs[1..];
    }
  }

  /** Minimal bytes padded back to the original width give the original
      bytes. */
  lemma {:induction false} PaddedToBytes(c: seq<Byte>)
    requires 1 <= |c|
    ensures |ToBytesLe(FromBytesLe(c))| <= |c|
    ensures ToBytesLe(FromBytesLe(c)) + Zeros(|c| - |ToBytesLe(FromBytesLe(c))|) == c
  {
    var v := FromBytesLe(c);
    var rest := FromBytesLe(c[1..]);
    assert v == c[0] + 256 * rest;
    if v < 256 {
      assert rest == 0;
      FromBytesZeroAll(c[1..]);
      assert c == [c[0]] + c[1..];
    } else {
      assert v % 256 == c[0] && v / 256 == rest;
      assert |c| >= 2;
      PaddedToBytes(c[1..]);
      assert c == [c[0]] + c[1..];
    }
  }

  /** A 32-byte key fits in the two words of a root key. */
  lemma DalekKeyFits(key: DalekKey)
    requires |key.bytes| == ScalarBytes
    ensures BigUintFromKey(KeyFromDalek(key, RootKeyWords)) == FromBytesLe(key.bytes)
  {
    PaddedToBytes(key.bytes);
    CombineSplit(FromBytesLe(key.bytes), RootKeyWords);
  }

  /** As written, a valid public key whose last byte is 0 (the compressed
      identity point `01 00 .. 00` is one) cannot come back from its
      non-native key: the minimal encoding is shorter than 32 bytes and
      `unwrap` panics. */
  lemma DalekRoundTripFails(key: DalekKey, decompresses: seq<Byte> -> bool)
    requires |key.bytes| == ScalarBytes && key.bytes[ScalarBytes - 1] == 0
    ensures DalekFromKey(KeyFromDalek(key, RootKeyWords), decompresses).None?
  {
    DalekKeyFits(key);
    var low := key.bytes[..ScalarBytes - 1];
    assert key.bytes == low + Zeros(1);
    FromBytesZeros(low, 1);
    FromBytesBound(low);
    ToBytesLength(FromBytesLe(low), ScalarMaxBytes);
  }

  /** With the bytes padded to 32, every valid public key comes back from
      its non-native key. */
  lemma DalekRoundTripPadded(key: DalekKey, decompresses: seq<Byte> -> bool)
    requires |key.bytes| == ScalarBytes && decompresses(key.bytes)
    ensures DalekFromKeyPadded(KeyFromDalek(key, RootKeyWords), decompresses) == Some(key)
  {
    DalekKeyFits(key);
    PaddedToBytes(key.bytes);
    var t := ToBytesLe(FromBytesLe(key.bytes));
    assert PadTake(t, 0, ScalarBytes) == t + Zeros(ScalarBytes - |t|);
  }
}
