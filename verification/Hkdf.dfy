/** The HKDF expand loop (`_hkdf_sha256` in apps/flasher/src/sambuca_flasher/keys.py) against
    RFC 5869 section 2.3. `mac` stands for HMAC-SHA-256, key first. */
module Hkdf {
  import opened Texts
  import opened Bytes

  type Mac = (Bytes, Bytes) -> Bytes

  const HASH_LEN := 32

  /** The digest length of SHA-256. */
  ghost predicate MacLength(mac: Mac) {
    forall k: Bytes, m: Bytes :: |mac(k, m)| == HASH_LEN
  }

  /** T(i) of RFC 5869 section 2.3: T(0) is empty, T(i) = HMAC(PRK, T(i-1) | info | i). */
  function T(mac: Mac, prk: Bytes, info: Bytes, i: nat): Bytes
    requires i < 256
  {
    if i == 0 then [] else mac(prk, T(mac, prk, info, i - 1) + info + [i])
  }

  /** T(1) | T(2) | ... | T(n) */
  function Stream(mac: Mac, prk: Bytes, info: Bytes, n: nat): Bytes
    requires n < 256
  {
    if n == 0 then [] else Stream(mac, prk, info, n - 1) + T(mac, prk, info, n)
  }

  /** A longer stream starts with every shorter one. */
  lemma {:induction false} StreamPrefix(mac: Mac, prk: Bytes, info: Bytes, m: nat, n: nat)
    requires m <= n < 256
    ensures Stream(mac, prk, info, m) <= Stream(mac, prk, info, n)
  {
    if m < n {
      StreamPrefix(mac, prk, info, m, n - 1);
    }
  }

  datatype TooLong = TooLong(length: nat)

  /** The output of RFC 5869: the first `length` octets of the stream of N = ceil(L/HashLen)
      blocks. */
  ghost predicate IsOkm(mac: Mac, salt: Bytes, ikm: Bytes, info: Bytes, length: nat, okm: Bytes)
    requires length <= 255 * HASH_LEN
  {
    var n := (length + HASH_LEN - 1) / HASH_LEN;
    var stream := Stream(mac, mac(salt, ikm), info, n);
    |okm| == length && okm <= stream
  }

  /** `_hkdf_sha256`: refused above 255 blocks, else the RFC's output; the counter octet never
      leaves its range. */
  method HkdfSha256(mac: Mac, ikm: Bytes, salt: Bytes, info: Bytes, length: nat) returns (r: Result<Bytes, TooLong>)
    requires MacLength(mac)
    ensures r.Err? <==> length > 255 * HASH_LEN
    ensures r.Ok? ==> IsOkm(mac, salt, ikm, info, length, r.value)
  {
    if length > 255 * HASH_LEN {
      return Err(TooLong(length));
    }
    var prk := mac(salt, ikm);
    var okm, block, counter := [], [], 1;
    while |okm| < length
      invariant 1 <= counter <= 256
      invariant okm == Stream(mac, prk, info, counter - 1) && block == T(mac, prk, info, counter - 1)
      invariant |okm| == (counter - 1) * HASH_LEN
      invariant |okm| < length + HASH_LEN
      decreases length + HASH_LEN - |okm|
    {
      assert counter < 256;
      block := mac(prk, block + info + [counter]);
      okm := okm + block;
      counter := counter + 1;
    }
    BlockCount(length, counter - 1);
    return Ok(okm[..length]);
  }

  lemma BlockCount(length: nat, n: nat)
    requires length <= n * HASH_LEN < length + HASH_LEN
    ensures (length + HASH_LEN - 1) / HASH_LEN == n
  {
  }

  /** Asking for less gives a prefix of what asking for more gives. */
  lemma ShorterIsPrefix(mac: Mac, salt: Bytes, ikm: Bytes, info: Bytes, short: nat, long: nat, a: Bytes, b: Bytes)
    requires MacLength(mac) && short <= long <= 255 * HASH_LEN
    requires IsOkm(mac, salt, ikm, info, short, a) && IsOkm(mac, salt, ikm, info, long, b)
    ensures a <= b
  {
    var m, n := (short + HASH_LEN - 1) / HASH_LEN, (long + HASH_LEN - 1) / HASH_LEN;
    var prk := mac(salt, ikm);
    StreamPrefix(mac, prk, info, m, n);
    assert a <= Stream(mac, prk, info, n);
  }

  /** The outputs of one and of two blocks, spelt out. */
  lemma OkmSpelt(mac: Mac, salt: Bytes, ikm: Bytes, info: Bytes, length: nat, okm: Bytes)
    requires MacLength(mac) && length <= 64 && IsOkm(mac, salt, ikm, info, length, okm)
    ensures var prk := mac(salt, ikm);
      var first := mac(prk, info + [1]);
      && (length <= 32 ==> okm == first[..length])
      && okm == (first + mac(prk, first + info + [2]))[..length]
  {
    var prk := mac(salt, ikm);
    var first := mac(prk, info + [1]);
    assert [] + info + [1] == info + [1];
    assert T(mac, prk, info, 0) == [] && T(mac, prk, info, 1) == first;
    assert T(mac, prk, info, 2) == mac(prk, first + info + [2]);
    assert Stream(mac, prk, info, 0) == [] && Stream(mac, prk, info, 1) == first;
    assert Stream(mac, prk, info, 2) == first + mac(prk, first + info + [2]);
    StreamPrefix(mac, prk, info, (length + HASH_LEN - 1) / HASH_LEN, 2);
    assert okm <= Stream(mac, prk, info, 2);
  }
}
