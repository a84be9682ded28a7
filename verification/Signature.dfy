/** Signing and verifying over any group that the points may form: base.go on top of the arithmetic. */
module Signature {
  import opened Machine
  import opened Bits
  import opened AbelianGroup
  import opened Wrappers
  import Scalar
  import ScalarMult
  import BaseMult
  import FieldLimbs
  import Reduction = ScalarReduction

  /**
   * What the arithmetic does not determine: the group of points with base point B of order dividing L, their encoding,
   * and the hash, SHA-512.
   */
  datatype Setting<!G(!new)> = Setting(group: Group<G>, B: G, encode: G -> seq<byte>, decode: seq<byte> -> Option<G>,
                                       hash: seq<byte> -> seq<byte>)

  ghost predicate Suited<G(!new)>(e: Setting<G>) {
    Abelian(e.group) && Times(e.group, Reduction.L, e.B) == e.group.zero
    && (forall x :: |e.encode(x)| == 32) && (forall s :: |e.hash(s)| == 64)
  }

  /** The tables of multiples of B: for the doubled ladder, and for the base point multiplication. */
  ghost predicate Tables<G(!new)>(e: Setting<G>, bi: seq<G>, base: seq<seq<G>>) {
    ScalarMult.OddMultiples(e.group, bi, e.B) && BaseMult.BaseTable(e.group, base, e.B)
  }

  // ---- clamping ----

  lemma {:induction false} AndAtMost(x: nat, y: nat)
    ensures And(x, y) <= x
  {
    if x > 0 {
      AndAtMost(x / 2, y / 2);
    }
  }

  // the bit above l is set, whether it was or not
  lemma {:induction false} OrBit(l: nat, b: nat, k: nat)
    requires l < Pow2(k) && b <= 1
    ensures Or(l + b * Pow2(k), Pow2(k)) == l + Pow2(k)
    decreases k
  {
    if k > 0 {
      OrBit(l / 2, b, k - 1);
      assert (l + b * Pow2(k)) / 2 == l / 2 + b * Pow2(k - 1) && (l + b * Pow2(k)) % 2 == l % 2;
    } else {
      assert Or(0, 0) == 0;
    }
  }

  /** x & 127 | 64, which key generation writes, and x & 63 | 64, which signing writes, are the same. */
  lemma TopClamped(x: byte)
    ensures Or(And(127, x), 64) == Or(And(63, x), 64) == 64 + Low(x, 6)
  {
    hide And, Or, Low;
    assert Pow2(6) == 64 && Pow2(7) == 128;
    hide Pow2;
    AndMask(7, x);
    AndMask(6, x);
    SixBits(x);
    OrBit(Low(x, 6), x / 64 % 2, 6);
    OrBit(Low(x, 6), 0, 6);
  }

  lemma SixBits(x: byte)
    ensures Low(x, 7) == Low(x, 6) + x / 64 % 2 * Pow2(6)
  {
    assert Pow2(6) == 64 && Pow2(7) == 128;
  }

  /** The first half of a digest with the bits of a secret scalar set and cleared. */
  function Clamped(digest: seq<byte>): (k: seq<byte>)
    requires |digest| == 64
    ensures |k| == 32 && k[31] <= 127
  {
    AndAtMost(248, digest[0]);
    TopClamped(digest[31]);
    assert Pow2(6) == 64;
    digest[..32][0 := And(248, digest[0])][31 := Or(And(127, digest[31]), 64)]
  }

  /** A secret scalar is the digest's first half with the bits 0, 1, 2 and 255 cleared and bit 254 set: a multiple of 8
      between 2^254 and 2^255. */
  lemma ClampedMeaning(digest: seq<byte>)
    requires |digest| == 64
    ensures var k := Clamped(digest);
            && Le(k) % 8 == 0 && Pow2(254) <= Le(k) < Pow2(255)
            && k[0] == digest[0] - digest[0] % 8 && k[31] == 64 + digest[31] % 64
            && forall i | 0 < i < 31 :: k[i] == digest[i]
  {
    hide Le, Clamped, Pow2;
    var k := Clamped(digest);
    ClampedIs(digest);
    FirstByte(k);
    LastByte(k);
    Top254();
    Between(k[31], Pow2(248), Le(k));
  }

  lemma Between(x: nat, m: int, v: int)
    requires 64 <= x < 128 && m > 0 && x * m <= v < (x + 1) * m
    ensures 64 * m <= v < 128 * m
  {
  }

  lemma ClampedIs(digest: seq<byte>)
    requires |digest| == 64
    ensures var k := Clamped(digest);
            k[0] == digest[0] - digest[0] % 8 && k[31] == 64 + digest[31] % 64
            && forall i | 0 < i < 31 :: k[i] == digest[i]
  {
    hide And, Or, Low;
    ClampedBytes(digest);
    TopClamped(digest[31]);
    LowSix(digest[31]);
    MaskedBy248(digest[0]);
  }

  lemma LowSix(x: byte)
    ensures Low(x, 6) == x % 64
  {
    assert Pow2(6) == 64;
  }

  lemma MaskedBy248(x: byte)
    ensures And(248, x) == x - x % 8
  {
    var y := x / 2 / 2 / 2;
    AndEven(124, x);
    AndEven(62, x / 2);
    AndEven(31, x / 2 / 2);
    assert Pow2(5) == 32;
    hide And, Pow2;
    AndMask(5, y);
    SmallLow(y, 5);
  }

  lemma FirstByte(s: seq<byte>)
    requires |s| > 0
    ensures Le(s) % 8 == s[0] % 8
  {
    assert Le(s) == s[0] + 256 * LeFrom(s, 1);
  }

  // the number of 32 bytes lies as its last byte says
  lemma LastByte(s: seq<byte>)
    requires |s| == 32
    ensures s[31] * Pow2(248) <= Le(s) < (s[31] + 1) * Pow2(248)
  {
    hide Le, LeFrom, Shr, Low, Pow2;
    LeByte(s, 31);
    LeIs(s);
    WholeField(s);
    FieldJoin(Le(s), 0, 248, 8);
    assert Pow2(248) * s[31] == s[31] * Pow2(248) && Pow2(248) + s[31] * Pow2(248) == (s[31] + 1) * Pow2(248);
  }

  lemma Top254()
    ensures Pow2(254) == 64 * Pow2(248) && Pow2(255) == 128 * Pow2(248)
  {
    assert Pow2(6) == 64;
    Sevens();
    hide Pow2;
    PowAdd(248, 6);
    PowAdd(248, 7);
  }

  /** The secret scalar of a seed. */
  ghost function Secret<G(!new)>(e: Setting<G>, seed: seq<byte>): nat
    requires Suited(e)
  {
    Le(Clamped(e.hash(seed)))
  }

  // ---- what is computed ----

  /** The hash of the three parts, reduced. */
  ghost function Challenge<G(!new)>(e: Setting<G>, encodedR: seq<byte>, publicKey: seq<byte>, message: seq<byte>): int {
    Le(e.hash(encodedR + publicKey + message)) % Reduction.L
  }

  /** The nonce that signing derives from the second half of the digest and the message. */
  ghost function Nonce<G(!new)>(e: Setting<G>, seed: seq<byte>, message: seq<byte>): int
    requires Suited(e)
  {
    Le(e.hash(e.hash(seed)[32..] + message)) % Reduction.L
  }

  /** The key pair of a seed. */
  ghost predicate KeyPair<G(!new)>(e: Setting<G>, seed: seq<byte>, publicKey: seq<byte>, privateKey: seq<byte>)
    requires Suited(e)
  {
    |seed| == 32 && publicKey == e.encode(Times(e.group, Secret(e, seed), e.B)) && privateKey == seed + publicKey
  }

  /** R followed by (h a + r) mod L. */
  ghost predicate Signed<G(!new)>(e: Setting<G>, privateKey: seq<byte>, message: seq<byte>, signature: seq<byte>)
    requires Suited(e) && |privateKey| == 64
  {
    var seed, publicKey := privateKey[..32], privateKey[32..];
    var r := Nonce(e, seed, message);
    var encodedR := e.encode(Times(e.group, r, e.B));
    |signature| == 64 && signature[..32] == encodedR
    && Le(signature[32..]) == (Challenge(e, encodedR, publicKey, message) * Secret(e, seed) + r) % Reduction.L
  }

  /** The public key decodes to some A, the scalar has at most 253 bits, and s B - h A encodes to R. */
  ghost predicate Accepted<G(!new)>(e: Setting<G>, publicKey: seq<byte>, message: seq<byte>, signature: seq<byte>)
    requires Suited(e)
  {
    |signature| == 64 && signature[63] < 32 && e.decode(publicKey).Some?
    && var A := e.decode(publicKey).value;
       var h := Challenge(e, signature[..32], publicKey, message);
       e.encode(e.group.add(Times(e.group, h, e.group.neg(A)), Times(e.group, Le(signature[32..]), e.B)))
         == signature[..32]
  }

  // ---- what signing computes is accepted ----

  lemma ModTimes<G(!new)>(e: Setting<G>, n: int)
    requires Suited(e)
    ensures Times(e.group, n % Reduction.L, e.B) == Times(e.group, n, e.B)
  {
    hide Abelian, Times;
    ModTimesOf(e, n, e.B);
  }

  lemma ModTimesOf<G(!new)>(e: Setting<G>, n: int, x: G)
    requires Suited(e) && Times(e.group, Reduction.L, x) == e.group.zero
    ensures Times(e.group, n % Reduction.L, x) == Times(e.group, n, x)
  {
    hide Abelian, Times;
    var q := n / Reduction.L;
    assert n == Reduction.L * q + n % Reduction.L;
    TimesAdd(e.group, Reduction.L * q, n % Reduction.L, x);
    BaseMult.ScaledTerm(e.group, q, Reduction.L, x);
    ZeroTimes(e.group, q);
    assert q * Reduction.L == Reduction.L * q;
    Laws(e.group, Times(e.group, n % Reduction.L, x), x, x);
  }

  lemma {:induction false} ZeroTimes<G(!new)>(g: Group<G>, n: int)
    requires Abelian(g)
    ensures Times(g, n, g.zero) == g.zero
    decreases n < 0, if n < 0 then -n else n
  {
    hide Abelian;
    if n > 0 {
      ZeroTimes(g, n - 1);
      Laws(g, g.zero, g.zero, g.zero);
    } else if n < 0 {
      ZeroTimes(g, -n);
      TimesNeg(g, -n, g.zero);
      Laws(g, g.neg(g.zero), g.zero, g.zero);
      Laws(g, g.zero, g.zero, g.zero);
    }
  }

  /** h (-(a B)) + ((h a + r) mod L) B == r B */
  lemma Equation<G(!new)>(e: Setting<G>, h: nat, a: nat, r: nat)
    requires Suited(e)
    ensures var g := e.group;
            g.add(Times(g, h, g.neg(Times(g, a, e.B))), Times(g, (h * a + r) % Reduction.L, e.B)) == Times(g, r, e.B)
  {
    hide Abelian, Times;
    var g := e.group;
    ModTimes(e, h * a + r);
    TimesNeg(g, a, e.B);
    MinusScaled(g, h, 0 - a, e.B);
    var n: int := h * a;
    assert h * (0 - a) == -n;
    TimesAdd(g, -n, n + r, e.B);
  }

  lemma MinusScaled<G(!new)>(g: Group<G>, h: nat, a: int, x: G)
    requires Abelian(g)
    ensures Times(g, h, Times(g, a, x)) == Times(g, h * a, x)
  {
    hide Abelian, Times;
    TimesTimes(g, a, h, x);
    assert a * h == h * a;
  }

  /** Accepted are exactly the signatures of two 32-byte halves R and s with s below 2^253 for which s B - h A encodes
      to R, A being the point of the key and h the hash of R, the key and the message. */
  lemma AcceptedIff<G(!new)>(e: Setting<G>, publicKey: seq<byte>, message: seq<byte>, R: seq<byte>, s: seq<byte>)
    requires Suited(e) && |R| == |s| == 32 && e.decode(publicKey).Some?
    requires Times(e.group, Reduction.L, e.decode(publicKey).value) == e.group.zero
    ensures var g, A, h := e.group, e.decode(publicKey).value, Le(e.hash(R + publicKey + message));
            Accepted(e, publicKey, message, R + s)
            <==> Le(s) < Pow2(253) && e.encode(g.add(Times(g, Le(s), e.B), g.neg(Times(g, h, A)))) == R
  {
    hide Abelian, Times, Le, Pow2;
    var g, A, h := e.group, e.decode(publicKey).value, Le(e.hash(R + publicKey + message));
    Halves(R, s);
    assert (R + s)[63] == s[31];
    TopBits(s);
    ModTimesOf(e, h, A);
    NegTimes(g, h % Reduction.L, A);
    Laws(g, Times(g, Le(s), e.B), g.neg(Times(g, h, A)), A);
  }

  lemma TopBits(s: seq<byte>)
    requires |s| == 32
    ensures s[31] < 32 <==> Le(s) < Pow2(253)
  {
    hide Le, Pow2;
    LastByte(s);
    assert Pow2(253) == 32 * Pow2(248) by {
      Fifth();
      PowAdd(248, 5);
    }
    AtMost32(s[31], Pow2(248), Le(s));
  }

  lemma Fifth()
    ensures Pow2(5) == 32
  {
  }

  lemma AtMost32(x: nat, m: int, v: int)
    requires m > 0 && x * m <= v < (x + 1) * m
    ensures x < 32 <==> v < 32 * m
  {
  }

  /**
   * A signature is bound to its message: if one is accepted for two messages under a key of order dividing L, their
   * hashes, taken over R, the key and the message, differ by a multiple of the order of A.
   */
  lemma MessageBound<G(!new)>(e: Setting<G>, publicKey: seq<byte>, m1: seq<byte>, m2: seq<byte>, signature: seq<byte>)
    requires Suited(e) && Accepted(e, publicKey, m1, signature) && Accepted(e, publicKey, m2, signature)
    requires forall x, y :: e.encode(x) == e.encode(y) ==> x == y
    requires Times(e.group, Reduction.L, e.decode(publicKey).value) == e.group.zero
    ensures var h1 := Le(e.hash(signature[..32] + publicKey + m1));
            var h2 := Le(e.hash(signature[..32] + publicKey + m2));
            Times(e.group, h1, e.decode(publicKey).value) == Times(e.group, h2, e.decode(publicKey).value)
  {
    hide Abelian, Times, Le;
    var g, A := e.group, e.decode(publicKey).value;
    var h1, h2 := Challenge(e, signature[..32], publicKey, m1), Challenge(e, signature[..32], publicKey, m2);
    CancelRight(g, Times(g, h1, g.neg(A)), Times(g, h2, g.neg(A)), Times(g, Le(signature[32..]), e.B));
    SameNegated(g, h1, h2, A);
    ModTimesOf(e, Le(e.hash(signature[..32] + publicKey + m1)), A);
    ModTimesOf(e, Le(e.hash(signature[..32] + publicKey + m2)), A);
  }

  lemma SameNegated<G(!new)>(g: Group<G>, m: nat, n: nat, x: G)
    requires Abelian(g) && Times(g, m, g.neg(x)) == Times(g, n, g.neg(x))
    ensures Times(g, m, x) == Times(g, n, x)
  {
    hide Abelian, Times;
    NegTimes(g, m, x);
    NegTimes(g, n, x);
    NegTwice(g, Times(g, m, x));
    NegTwice(g, Times(g, n, x));
  }

  lemma NegTimes<G(!new)>(g: Group<G>, m: nat, x: G)
    requires Abelian(g)
    ensures Times(g, m, g.neg(x)) == g.neg(Times(g, m, x))
  {
    hide Abelian, Times;
    TimesNeg(g, 1, x);
    TimesOne(g, x);
    MinusScaled(g, m, -1, x);
    TimesNeg(g, m, x);
    var n: int := m;
    assert n * -1 == -n;
  }

  lemma NegTwice<G(!new)>(g: Group<G>, x: G)
    requires Abelian(g)
    ensures g.neg(g.neg(x)) == x
  {
    hide Abelian;
    Laws(g, g.neg(x), x, x);
    Laws(g, x, g.neg(x), x);
    NegUnique(g, g.neg(x), x);
  }

  /** A nonce is bound to its message as well: signatures of two messages that share R have hashes that differ by a
      multiple of the order of B. */
  lemma NonceBound<G(!new)>(e: Setting<G>, privateKey: seq<byte>, m1: seq<byte>, m2: seq<byte>, s1: seq<byte>,
                            s2: seq<byte>)
    requires Suited(e) && |privateKey| == 64 && Signed(e, privateKey, m1, s1) && Signed(e, privateKey, m2, s2)
    requires s1[..32] == s2[..32] && forall x, y :: e.encode(x) == e.encode(y) ==> x == y
    ensures var prefix := e.hash(privateKey[..32])[32..];
            Times(e.group, Le(e.hash(prefix + m1)), e.B) == Times(e.group, Le(e.hash(prefix + m2)), e.B)
  {
    hide Abelian, Times, Le;
    var prefix := e.hash(privateKey[..32])[32..];
    ModTimes(e, Le(e.hash(prefix + m1)));
    ModTimes(e, Le(e.hash(prefix + m2)));
  }

  /** A scalar below L fills at most 253 bits. */
  lemma TopByteSmall(s: seq<byte>)
    requires |s| == 32 && Le(s) < Reduction.L
    ensures s[31] < 32
  {
    hide Le, LeFrom;
    LeByte(s, 31);
    TopField(Le(s));
  }

  /** Every message signed with a generated key is accepted under that key, whose encoding is decoded again. */
  lemma SignedIsAccepted<G(!new)>(e: Setting<G>, seed: seq<byte>, publicKey: seq<byte>, privateKey: seq<byte>,
                                  message: seq<byte>, signature: seq<byte>)
    requires Suited(e) && KeyPair(e, seed, publicKey, privateKey) && Signed(e, privateKey, message, signature)
    requires e.decode(publicKey) == Some(Times(e.group, Secret(e, seed), e.B))
    ensures Accepted(e, publicKey, message, signature)
  {
    hide Abelian, Times, Le, Clamped;
    assert privateKey[..32] == seed && privateKey[32..] == publicKey;
    var r, a := Nonce(e, seed, message), Secret(e, seed);
    Equation(e, Challenge(e, signature[..32], publicKey, message), a, r);
    TopByteSmall(signature[32..]);
    assert signature[32..][31] == signature[63];
  }

  lemma TopField(n: nat)
    requires n < Reduction.L
    ensures Field(n, 248, 8) < 32
  {
    FieldLimbs.WholePower();
    PowAdd(248, 7);
    Sevens();
    hide Pow2;
    Below32(n, Pow2(248));
    SmallLow(Shr(n, 248), 8);
  }

  lemma Sevens()
    ensures Pow2(7) == 128 && Pow2(8) == 256
  {
  }

  lemma Below32(n: nat, m: int)
    requires n < 32 * m
    ensures n / m < 32
  {
  }

  // ---- the methods ----

  // a fresh array with these bytes
  method Bytes(s: seq<byte>) returns (a: array<byte>)
    ensures fresh(a) && a[..] == s
  {
    a := new byte[|s|](i requires 0 <= i < |s| => s[i]);
    assert a[..] == s;
  }

  /** GenerateKey, from the seed that the reader supplies. */
  method GenerateKey<G(!new)>(e: Setting<G>, base: seq<seq<G>>, ghost bi: seq<G>, seed: seq<byte>)
      returns (publicKey: seq<byte>, privateKey: seq<byte>)
    requires Suited(e) && Tables(e, bi, base) && |seed| == 32
    ensures KeyPair(e, seed, publicKey, privateKey)
    ensures publicKey == e.encode(Times(e.group, Le(Clamped(e.hash(seed))), e.B)) && privateKey == seed + publicKey
  {
    hide Abelian, Times, Le, And, Or, ScalarMult.OddMultiples, BaseMult.BaseTable;
    var digest := e.hash(seed);
    var hBytes := Bytes(digest[..32]);
    ClampedBytes(digest);
    hBytes[0] := And(248, hBytes[0]);
    hBytes[31] := And(127, hBytes[31]);
    hBytes[31] := Or(hBytes[31], 64);
    assert hBytes[..] == Clamped(digest);
    var A := BaseMult.ScalarMultBase(e.group, hBytes, base, e.B);
    publicKey := e.encode(A);
    privateKey := seed + publicKey;
  }

  lemma ClampedBytes(digest: seq<byte>)
    requires |digest| == 64
    ensures And(248, digest[0]) < 256 && And(127, digest[31]) < 256 && And(63, digest[31]) < 256
    ensures Or(And(127, digest[31]), 64) == Or(And(63, digest[31]), 64) < 128
  {
    hide And, Or;
    AndAtMost(248, digest[0]);
    AndAtMost(127, digest[31]);
    AndAtMost(63, digest[31]);
    TopClamped(digest[31]);
    assert Pow2(6) == 64;
  }

  /** Sign panics on a private key of another length. */
  method Sign<G(!new)>(e: Setting<G>, base: seq<seq<G>>, ghost bi: seq<G>, privateKey: seq<byte>, message: seq<byte>)
      returns (signature: Completion<seq<byte>>)
    requires Suited(e) && Tables(e, bi, base)
    ensures signature.Panic? <==> |privateKey| != 64
    ensures signature.Done? ==> Signed(e, privateKey, message, signature.value)
  {
    hide Abelian, Times, Le, Clamped, ScalarMult.OddMultiples, BaseMult.BaseTable;
    if |privateKey| != 64 {
      return Panic;
    }
    var digest1 := e.hash(privateKey[..32]);
    var expandedSecretKey := Expand(digest1);
    var messageDigest := Bytes(e.hash(digest1[32..] + message));
    var messageDigestReduced := new byte[32];
    Scalar.ScReduce(messageDigestReduced, messageDigest);
    TopByteSmall(messageDigestReduced[..]);
    var R := BaseMult.ScalarMultBase(e.group, messageDigestReduced, base, e.B);
    var encodedR := e.encode(R);
    var hramDigest := Bytes(e.hash(encodedR + privateKey[32..] + message));
    var hramDigestReduced := new byte[32];
    Scalar.ScReduce(hramDigestReduced, hramDigest);
    var s := new byte[32];
    Scalar.ScMulAdd(s, hramDigestReduced, expandedSecretKey, messageDigestReduced);
    Halves(encodedR, s[..]);
    return Done(encodedR + s[..]);
  }

  // the secret scalar, as signing writes it
  method Expand(digest: seq<byte>) returns (k: array<byte>)
    requires |digest| == 64
    ensures fresh(k) && k[..] == Clamped(digest)
  {
    hide And, Or;
    k := Bytes(digest[..32]);
    ClampedBytes(digest);
    k[0] := And(248, k[0]);
    k[31] := And(63, k[31]);
    k[31] := Or(k[31], 64);
    assert k[..] == Clamped(digest);
  }

  lemma Halves(s: seq<byte>, t: seq<byte>)
    ensures (s + t)[..|s|] == s && (s + t)[|s|..] == t
  {
  }

  /** Verify panics on a public key of another length. */
  method Verify<G(!new)>(e: Setting<G>, ghost base: seq<seq<G>>, bi: seq<G>, publicKey: seq<byte>, message: seq<byte>,
                         sig: seq<byte>)
      returns (ok: Completion<bool>)
    requires Suited(e) && Tables(e, bi, base)
    ensures ok.Panic? <==> |publicKey| != 32
    ensures ok.Done? ==> (ok.value <==> Accepted(e, publicKey, message, sig))
  {
    hide Abelian, Times, Le, And, ScalarMult.OddMultiples, BaseMult.BaseTable;
    if |publicKey| != 32 {
      return Panic;
    }
    if |sig| != 64 {
      return Done(false);
    }
    TopThree(sig[63]);
    if And(224, sig[63]) != 0 {
      return Done(false);
    }
    var A := e.decode(publicKey);
    if A.None? {
      return Done(false);
    }
    var digest := Bytes(e.hash(sig[..32] + publicKey + message));
    var hReduced := new byte[32];
    Scalar.ScReduce(hReduced, digest);
    var b := Bytes(sig[32..]);
    assert b[..][31] == sig[63];
    Below255(b[..]);
    BelowL(Le(hReduced[..]));
    var R := ScalarMult.DoubleScalarMult(e.group, hReduced, e.group.neg(A.value), b, bi, e.B);
    var checkR := e.encode(R);
    return Done(sig[..32] == checkR);
  }

  lemma BelowL(n: nat)
    requires n < Reduction.L
    ensures n < Pow2(255)
  {
    FieldLimbs.WholePower();
  }

  lemma Below255(s: seq<byte>)
    requires |s| == 32 && s[31] < 32
    ensures Le(s) < Pow2(255)
  {
    hide Le, LeFrom, Shr, Low, Pow2;
    Sevens();
    LeByte(s, 31);
    LeBound(s, 0);
    LeIs(s);
    WholeField(s);
    FieldJoin(Le(s), 0, 248, 8);
    PowAdd(248, 7);
    Combine(Field(Le(s), 0, 248), s[31], Pow2(248));
  }

  lemma Combine(l: int, h: int, m: int)
    requires 0 <= l < m && 0 <= h < 32
    ensures l + m * h < m * 128
  {
  }

  // sig[63] & 224
  lemma TopThree(x: byte)
    ensures And(224, x) == 0 <==> x < 32
  {
    var y := x / 2 / 2 / 2 / 2 / 2;
    AndEven(112, x);
    AndEven(56, x / 2);
    AndEven(28, x / 2 / 2);
    AndEven(14, x / 2 / 2 / 2);
    AndEven(7, x / 2 / 2 / 2 / 2);
    Eight();
    hide And, Pow2;
    AndMask(3, y);
    SmallLow(y, 3);
  }

  lemma Eight()
    ensures Pow2(3) == 8
  {
  }

  lemma AndEven(m: nat, x: nat)
    ensures And(2 * m, x) == 2 * And(m, x / 2)
  {
    if m == 0 {
      assert And(0, x) == 0 == And(0, x / 2);
    }
  }
}
