/** The counter-mode cipher for stored secrets. HMAC-SHA256 is any function with 32-byte results; UTF-8 and
    base64url (section 5 of RFC 4648) are inverse pairs. */
module Cipher {
  import opened Wrappers
  import opened Bytes

  type Data = seq<Byte>

  const NONCE: nat := 16
  const TAG: nat := 32
  const BLOCK: nat := 32
  const COUNTERS: nat := 0x1_0000_0000

  type Hmac = (Data, Data) -> Data

  ghost predicate IsHmac(hmac: Hmac) {
    forall key, message :: |hmac(key, message)| == BLOCK
  }

  // ---- the keystream --------------------------------------------------------------------------------------

  /** The `i`-th binary digit. */
  predicate Bit(n: nat, i: nat) {
    if i == 0 then n % 2 == 1 else Bit(n / 2, i - 1)
  }

  function OfBits(b7: bool, b6: bool, b5: bool, b4: bool, b3: bool, b2: bool, b1: bool, b0: bool): Byte {
    (if b7 then 128 else 0) | (if b6 then 64 else 0) | (if b5 then 32 else 0) | (if b4 then 16 else 0)
    | (if b3 then 8 else 0) | (if b2 then 4 else 0) | (if b1 then 2 else 0) | (if b0 then 1 else 0)
  }

  /** The number's low byte, bit by bit. */
  function Octet(n: nat): Byte {
    OfBits(Bit(n, 7), Bit(n, 6), Bit(n, 5), Bit(n, 4), Bit(n, 3), Bit(n, 2), Bit(n, 1), Bit(n, 0))
  }

  lemma BitsTell(a7: bool, a6: bool, a5: bool, a4: bool, a3: bool, a2: bool, a1: bool, a0: bool,
                 b7: bool, b6: bool, b5: bool, b4: bool, b3: bool, b2: bool, b1: bool, b0: bool)
    requires OfBits(a7, a6, a5, a4, a3, a2, a1, a0) == OfBits(b7, b6, b5, b4, b3, b2, b1, b0)
    ensures a7 == b7 && a6 == b6 && a5 == b5 && a4 == b4 && a3 == b3 && a2 == b2 && a1 == b1 && a0 == b0
  {
  }

  function Pow2(k: nat): nat {
    if k == 0 then 1 else 2 * Pow2(k - 1)
  }

  lemma {:induction false} SameBits(a: nat, b: nat, k: nat)
    requires a < Pow2(k) && b < Pow2(k) && forall i: nat :: i < k ==> Bit(a, i) == Bit(b, i)
    ensures a == b
  {
    if k > 0 {
      assert Bit(a, 0) == Bit(b, 0);
      forall i: nat | i < k - 1 ensures Bit(a / 2, i) == Bit(b / 2, i) { assert Bit(a, i + 1) == Bit(b, i + 1); }
      SameBits(a / 2, b / 2, k - 1);
    }
  }

  lemma Pow2Of8()
    ensures Pow2(8) == 0x100
  {
    assert Pow2(4) == 16;
    assert Pow2(6) == 64;
  }

  lemma OctetTells(a: nat, b: nat)
    requires a < 0x100 && b < 0x100 && Octet(a) == Octet(b)
    ensures a == b
  {
    hide OfBits;
    hide Bit;
    hide Pow2;
    BitsTell(Bit(a, 7), Bit(a, 6), Bit(a, 5), Bit(a, 4), Bit(a, 3), Bit(a, 2), Bit(a, 1), Bit(a, 0),
             Bit(b, 7), Bit(b, 6), Bit(b, 5), Bit(b, 4), Bit(b, 3), Bit(b, 2), Bit(b, 1), Bit(b, 0));
    Pow2Of8();
    SameBits(a, b, 8);
  }

  /** `counter.to_bytes(4, "big")`. */
  function BigEndian(counter: nat): (r: Data)
    requires counter < COUNTERS
    ensures |r| == 4
  {
    var (d2, d1) := (counter / 0x100 / 0x100, counter / 0x100);
    [Octet(d2 / 0x100), Octet(d2 % 0x100), Octet(d1 % 0x100), Octet(counter % 0x100)]
  }

  /** No two blocks of a stream are made from the same message. */
  lemma CountersDiffer(nonce: Data, a: nat, b: nat)
    requires a < COUNTERS && b < COUNTERS && nonce + BigEndian(a) == nonce + BigEndian(b)
    ensures a == b
  {
    hide Octet;
    var x, y := BigEndian(a), BigEndian(b);
    assert x == (nonce + x)[|nonce|..] && y == (nonce + y)[|nonce|..];
    assert x[0] == y[0] && x[1] == y[1] && x[2] == y[2] && x[3] == y[3];
    OctetTells(a / 0x100 / 0x100 / 0x100, b / 0x100 / 0x100 / 0x100);
    OctetTells(a / 0x100 / 0x100 % 0x100, b / 0x100 / 0x100 % 0x100);
    OctetTells(a / 0x100 % 0x100, b / 0x100 % 0x100);
    OctetTells(a % 0x100, b % 0x100);
    DigitTells(a / 0x100 / 0x100, b / 0x100 / 0x100);
    DigitTells(a / 0x100, b / 0x100);
    DigitTells(a, b);
  }

  lemma DigitTells(a: nat, b: nat)
    requires a / 0x100 == b / 0x100 && a % 0x100 == b % 0x100
    ensures a == b
  {
    assert a == a / 0x100 * 0x100 + a % 0x100 && b == b / 0x100 * 0x100 + b % 0x100;
  }

  // ---- the counter's bytes, read as a number --------------------------------------------------------------

  /** The number a byte stands for. */
  function Worth(b: Byte): nat {
    (if b & 128 != 0 then 128 else 0) + (if b & 64 != 0 then 64 else 0) + (if b & 32 != 0 then 32 else 0)
    + (if b & 16 != 0 then 16 else 0) + (if b & 8 != 0 then 8 else 0) + (if b & 4 != 0 then 4 else 0)
    + (if b & 2 != 0 then 2 else 0) + (if b & 1 != 0 then 1 else 0)
  }

  lemma BitsOf(b7: bool, b6: bool, b5: bool, b4: bool, b3: bool, b2: bool, b1: bool, b0: bool)
    ensures var b := OfBits(b7, b6, b5, b4, b3, b2, b1, b0);
            && (b & 128 != 0) == b7 && (b & 64 != 0) == b6 && (b & 32 != 0) == b5 && (b & 16 != 0) == b4
            && (b & 8 != 0) == b3 && (b & 4 != 0) == b2 && (b & 2 != 0) == b1 && (b & 1 != 0) == b0
  {
  }

  /** What the `k` low binary digits of a number are worth. */
  function Low(n: nat, k: nat): nat {
    if k == 0 then 0 else Low(n, k - 1) + if Bit(n, k - 1) then Pow2(k - 1) else 0
  }

  lemma {:induction false} LowOfHalf(n: nat, k: nat)
    ensures Low(n, k + 1) == n % 2 + 2 * Low(n / 2, k)
  {
    if k > 0 { LowOfHalf(n, k - 1); }
  }

  lemma {:induction false} LowIsAll(n: nat, k: nat)
    requires n < Pow2(k)
    ensures Low(n, k) == n
  {
    if k > 0 {
      LowIsAll(n / 2, k - 1);
      LowOfHalf(n, k - 1);
    }
  }

  lemma LowOf8(n: nat)
    ensures Low(n, 8) == (if Bit(n, 7) then 128 else 0) + (if Bit(n, 6) then 64 else 0) + (if Bit(n, 5) then 32 else 0)
                       + (if Bit(n, 4) then 16 else 0) + (if Bit(n, 3) then 8 else 0) + (if Bit(n, 2) then 4 else 0)
                       + (if Bit(n, 1) then 2 else 0) + (if Bit(n, 0) then 1 else 0)
  {
    hide Bit;
    hide Low;
    assert Pow2(0) == 1;
    hide Pow2;
    LowStep(n, 0, 1);
    LowStep(n, 1, 2);
    LowStep(n, 2, 4);
    LowStep(n, 3, 8);
    assert Low(n, 4) == (if Bit(n, 3) then 8 else 0) + (if Bit(n, 2) then 4 else 0) + (if Bit(n, 1) then 2 else 0) + if Bit(n, 0) then 1 else 0;
    LowStep(n, 4, 16);
    LowStep(n, 5, 32);
    LowStep(n, 6, 64);
    LowStep(n, 7, 128);
  }

  lemma LowStep(n: nat, k: nat, power: nat)
    requires Pow2(k) == power
    ensures Pow2(k + 1) == 2 * power && Low(n, k + 1) == Low(n, k) + if Bit(n, k) then power else 0
    ensures Low(n, 0) == 0
  {
  }

  /** A byte stands for the number it was made from. */
  lemma OctetIsWorth(n: nat)
    requires n < 0x100
    ensures Worth(Octet(n)) == n
  {
    hide Bit;
    hide OfBits;
    hide Low;
    hide Pow2;
    Pow2Of8();
    LowIsAll(n, 8);
    LowOf8(n);
    BitsOf(Bit(n, 7), Bit(n, 6), Bit(n, 5), Bit(n, 4), Bit(n, 3), Bit(n, 2), Bit(n, 1), Bit(n, 0));
  }

  /** The four bytes, read in base 256 with the first the most significant, are the counter. */
  lemma BigEndianReads(counter: nat)
    requires counter < COUNTERS
    ensures var r := BigEndian(counter);
            Worth(r[0]) * 0x100_0000 + Worth(r[1]) * 0x1_0000 + Worth(r[2]) * 0x100 + Worth(r[3]) == counter
  {
    hide Octet;
    hide Worth;
    var (d1, d2) := (counter / 0x100, counter / 0x100 / 0x100);
    OctetIsWorth(d2 / 0x100);
    OctetIsWorth(d2 % 0x100);
    OctetIsWorth(d1 % 0x100);
    OctetIsWorth(counter % 0x100);
  }

  function Block(hmac: Hmac, key: Data, nonce: Data, counter: nat): Data
    requires counter < COUNTERS
  {
    hmac(key, nonce + BigEndian(counter))
  }

  /** The `i`-th byte of the stream. */
  function StreamAt(hmac: Hmac, key: Data, nonce: Data, i: nat): Byte
    requires i < BLOCK * COUNTERS && IsHmac(hmac)
  {
    Block(hmac, key, nonce, i / BLOCK)[i % BLOCK]
  }

  function Stream(hmac: Hmac, key: Data, nonce: Data, n: nat): (s: Data)
    requires n <= BLOCK * COUNTERS && IsHmac(hmac)
    ensures |s| == n && forall i :: 0 <= i < n ==> s[i] == StreamAt(hmac, key, nonce, i)
  {
    seq(n, i requires 0 <= i < n => StreamAt(hmac, key, nonce, i))
  }

  /** A shorter stream begins a longer one. */
  lemma StreamPrefix(hmac: Hmac, key: Data, nonce: Data, m: nat, n: nat)
    requires m <= n <= BLOCK * COUNTERS && IsHmac(hmac)
    ensures Stream(hmac, key, nonce, m) == Stream(hmac, key, nonce, n)[..m]
  {
  }

  /** Block by block, cut to length. The counter has four bytes: the stream fails exactly beyond their
      range. */
  method Keystream(hmac: Hmac, key: Data, nonce: Data, nbytes: nat) returns (out: Option<Data>)
    requires IsHmac(hmac)
    ensures out == if nbytes <= BLOCK * COUNTERS then Some(Stream(hmac, key, nonce, nbytes)) else None
  {
    hide BigEndian;
    hide Block;
    hide StreamAt;
    var bytes: Data := [];
    var counter := 0;
    while |bytes| < nbytes
      invariant |bytes| == BLOCK * counter && counter <= COUNTERS
      invariant forall i :: 0 <= i < |bytes| ==> bytes[i] == StreamAt(hmac, key, nonce, i)
      decreases nbytes - |bytes|
    {
      if counter >= COUNTERS { return None; }
      var block := Block(hmac, key, nonce, counter);
      BlockAt(hmac, key, nonce, counter);
      bytes := bytes + block;
      counter := counter + 1;
    }
    BlocksReach(nbytes, |bytes|, counter);
    out := Some(bytes[..nbytes]);
    assert bytes[..nbytes] == Stream(hmac, key, nonce, nbytes);
  }

  lemma BlockAt(hmac: Hmac, key: Data, nonce: Data, counter: nat)
    requires counter < COUNTERS && IsHmac(hmac)
    ensures |Block(hmac, key, nonce, counter)| == BLOCK
    ensures forall k :: 0 <= k < BLOCK ==> Block(hmac, key, nonce, counter)[k] == StreamAt(hmac, key, nonce, BLOCK * counter + k)
  {
    hide BigEndian;
    forall k | 0 <= k < BLOCK ensures Block(hmac, key, nonce, counter)[k] == StreamAt(hmac, key, nonce, BLOCK * counter + k) {
      assert (BLOCK * counter + k) / BLOCK == counter && (BLOCK * counter + k) % BLOCK == k;
    }
  }

  lemma BlocksReach(nbytes: nat, length: nat, counter: nat)
    requires nbytes <= length == BLOCK * counter && counter <= COUNTERS
    ensures nbytes <= BLOCK * COUNTERS
  {
  }

  // ---- sealing and opening ----------------------------------------------------------------------------------

  /** Everything the two sides share: HMAC, the key derivation's labels, and the two codecs. */
  datatype Suite = Suite(
    hmac: Hmac, encLabel: Data, macLabel: Data,
    encode: string -> Option<Data>, decode: Data -> Option<string>,
    armor: Data -> string, unarmor: string -> Option<Data>)
  {
    ghost predicate Valid() {
      && IsHmac(hmac)
      && (forall text :: encode(text).Some? ==> decode(encode(text).value) == Some(text))
      && (forall raw :: decode(raw).Some? ==> encode(decode(raw).value) == Some(raw))
      && (forall blob :: unarmor(armor(blob)) == Some(blob))
    }

    function EncKey(master: Data): Data {
      hmac(master, encLabel)
    }

    function MacKey(master: Data): Data {
      hmac(master, macLabel)
    }
  }

  datatype Failure = Corrupt | Unauthentic | BadText | TooLong

  datatype Result<T> = Ok(value: T) | Fail(failure: Failure)

  /** `bytes(a ^ b for a, b in zip(x, y, strict=True))`. */
  function Xor(x: Data, y: Data): (r: Data)
    requires |x| == |y|
    ensures |r| == |x|
  {
    seq(|x|, i requires 0 <= i < |x| => x[i] ^ y[i])
  }

  lemma XorTwice(x: Data, y: Data)
    requires |x| == |y|
    ensures Xor(Xor(x, y), y) == x
  {
    forall i | 0 <= i < |x| ensures Xor(Xor(x, y), y)[i] == x[i] { XorByte(x[i], y[i]); }
  }

  lemma XorByte(a: Byte, b: Byte)
    ensures (a ^ b) ^ b == a
  {
  }

  /** Nonce, tag, ciphertext. */
  function Blob(s: Suite, raw: Data, master: Data, nonce: Data): Data
    requires IsHmac(s.hmac) && |raw| <= BLOCK * COUNTERS
  {
    var cipher := Xor(raw, Stream(s.hmac, s.hmac(master, s.encLabel), nonce, |raw|));
    nonce + s.hmac(s.hmac(master, s.macLabel), nonce + cipher) + cipher
  }

  /** The token carries the sealing of `raw` under `nonce`. */
  ghost predicate Sealing(s: Suite, token: string, master: Data, raw: Data, nonce: Data)
    requires IsHmac(s.hmac)
  {
    && |nonce| == NONCE && |raw| <= BLOCK * COUNTERS
    && s.unarmor(token) == Some(Blob(s, raw, master, nonce))
  }

  method Encrypt(s: Suite, plaintext: string, master: Data, nonce: Data) returns (token: Result<string>)
    requires s.Valid() && |nonce| == NONCE
    ensures match s.encode(plaintext)
            case None => token == Fail(BadText)
            case Some(raw) =>
              if |raw| > BLOCK * COUNTERS then token == Fail(TooLong)
              else token.Ok? && Sealing(s, token.value, master, raw, nonce)
  {
    var raw := s.encode(plaintext);
    if raw == None { return Fail(BadText); }
    var stream := Keystream(s.hmac, s.EncKey(master), nonce, |raw.value|);
    if stream == None { return Fail(TooLong); }
    var cipher := Xor(raw.value, stream.value);
    var tag := s.hmac(s.MacKey(master), nonce + cipher);
    token := Ok(s.armor(nonce + tag + cipher));
  }

  /** What a blob is cut into, and what its last part opens to. */
  lemma BlobParts(s: Suite, raw: Data, master: Data, nonce: Data)
    requires IsHmac(s.hmac) && |raw| <= BLOCK * COUNTERS && |nonce| == NONCE
    ensures var blob := Blob(s, raw, master, nonce); var cipher := blob[NONCE + TAG..];
            && |blob| == NONCE + TAG + |raw| && blob[..NONCE] == nonce
            && blob[NONCE..NONCE + TAG] == s.hmac(s.MacKey(master), nonce + cipher)
            && |cipher| == |raw| && Xor(cipher, Stream(s.hmac, s.EncKey(master), nonce, |cipher|)) == raw
  {
    hide Stream;
    hide Xor;
    var stream := Stream(s.hmac, s.EncKey(master), nonce, |raw|);
    var cipher := Xor(raw, stream);
    var tag := s.hmac(s.MacKey(master), nonce + cipher);
    var blob := nonce + tag + cipher;
    assert blob[NONCE + TAG..] == cipher && blob[..NONCE] == nonce && blob[NONCE..NONCE + TAG] == tag;
    XorTwice(raw, stream);
  }

  /** A blob with a right tag is a blob: of what its last part opens to. */
  lemma PartsBlob(s: Suite, blob: Data, master: Data)
    requires IsHmac(s.hmac) && NONCE + TAG <= |blob| <= NONCE + TAG + BLOCK * COUNTERS
    requires blob[NONCE..NONCE + TAG] == s.hmac(s.MacKey(master), blob[..NONCE] + blob[NONCE + TAG..])
    ensures var cipher := blob[NONCE + TAG..];
            Blob(s, Xor(cipher, Stream(s.hmac, s.EncKey(master), blob[..NONCE], |cipher|)), master, blob[..NONCE]) == blob
  {
    hide Stream;
    hide Xor;
    var cipher := blob[NONCE + TAG..];
    XorTwice(cipher, Stream(s.hmac, s.EncKey(master), blob[..NONCE], |cipher|));
    assert blob == blob[..NONCE] + blob[NONCE..NONCE + TAG] + cipher;
  }

  /** Opening accepts exactly the blobs that sealing makes: a text comes out if and only if the token is the
      sealing of that text's bytes under some nonce. */
  method Decrypt(s: Suite, token: string, master: Data) returns (text: Result<string>)
    requires s.Valid()
    ensures s.unarmor(token) == None || |s.unarmor(token).value| < NONCE + TAG ==> text == Fail(Corrupt)
    ensures text.Ok? <==> exists raw, nonce :: Sealing(s, token, master, raw, nonce) && s.decode(raw).Some?
    ensures forall raw, nonce :: Sealing(s, token, master, raw, nonce) ==>
              text == if s.decode(raw).Some? then Ok(s.decode(raw).value) else Fail(BadText)
  {
    hide Stream;
    hide Xor;
    hide Blob;
    ghost var sealed := s.unarmor(token);
    forall raw, nonce | Sealing(s, token, master, raw, nonce)
      ensures sealed.Some? && |sealed.value| == NONCE + TAG + |raw| && sealed.value[..NONCE] == nonce
      ensures sealed.value[NONCE..NONCE + TAG] == s.hmac(s.MacKey(master), nonce + sealed.value[NONCE + TAG..])
      ensures Xor(sealed.value[NONCE + TAG..], Stream(s.hmac, s.EncKey(master), nonce, |raw|)) == raw
    {
      BlobParts(s, raw, master, nonce);
    }
    var blob := s.unarmor(token);
    if blob == None { return Fail(Corrupt); }
    if |blob.value| < NONCE + TAG { return Fail(Corrupt); }
    var nonce := blob.value[..NONCE];
    var tag := blob.value[NONCE..NONCE + TAG];
    var cipher := blob.value[NONCE + TAG..];
    if tag != s.hmac(s.MacKey(master), nonce + cipher) {
      return Fail(Unauthentic);
    }
    var stream := Keystream(s.hmac, s.EncKey(master), nonce, |cipher|);
    if stream == None { return Fail(TooLong); }
    var raw := Xor(cipher, stream.value);
    PartsBlob(s, blob.value, master);
    assert Sealing(s, token, master, raw, nonce);
    if s.decode(raw) == None { return Fail(BadText); }
    return Ok(s.decode(raw).value);
  }

  /** `decrypt(encrypt(p, k), k) == p`, for every text the counter range has room for, and every nonce. */
  method RoundTrip(s: Suite, plaintext: string, master: Data, nonce: Data) returns (back: Result<string>)
    requires s.Valid() && |nonce| == NONCE && s.encode(plaintext).Some? && |s.encode(plaintext).value| <= BLOCK * COUNTERS
    ensures back == Ok(plaintext)
  {
    var token := Encrypt(s, plaintext, master, nonce);
    back := Decrypt(s, token.value, master);
  }
}
