/** The printed recovery key (the tail of `derive_luks_recovery_key` in
    apps/flasher/src/sambuca_flasher/keys.py): base32 of RFC 4648 section 6 in hyphened
    groups of four. */
module RecoveryKey {
  import opened Bytes
  import opened Hkdf

  type Digit = d: int | 0 <= d < 32

  const KEY_BYTES := 20

  /** The base32 alphabet: A to Z, then 2 to 7. */
  function Symbol(d: Digit): char {
    if d < 26 then 'A' + d as char else '2' + (d - 26) as char
  }

  predicate IsSymbol(c: char) {
    'A' <= c <= 'Z' || '2' <= c <= '7'
  }

  function DigitOf(c: char): Digit
    requires IsSymbol(c)
  {
    if c >= 'A' then c as int - 'A' as int else c as int - '2' as int + 26
  }

  lemma SymbolRoundTrip(d: Digit)
    ensures IsSymbol(Symbol(d)) && DigitOf(Symbol(d)) == d
  {
  }

  /** Forty bits as eight digits, most significant first. */
  function Digits(b: Bytes): (ds: seq<Digit>)
    requires |b| == 5
    ensures |ds| == 8
  {
    [ b[0] / 8,
      b[0] % 8 * 4 + b[1] / 64,
      b[1] / 2 % 32,
      b[1] % 2 * 16 + b[2] / 16,
      b[2] % 16 * 2 + b[3] / 128,
      b[3] / 4 % 32,
      b[3] % 4 * 8 + b[4] / 32,
      b[4] % 32 ]
  }

  function Octets(ds: seq<Digit>): (b: Bytes)
    requires |ds| == 8
    ensures |b| == 5
  {
    var d := seq(8, i requires 0 <= i < 8 => ds[i] as int);
    [ d[0] * 8 + d[1] / 4,
      d[1] % 4 * 64 + d[2] * 2 + d[3] / 16,
      d[3] % 16 * 16 + d[4] / 2,
      d[4] % 2 * 128 + d[5] * 4 + d[6] / 8,
      d[6] % 8 * 32 + d[7] ]
  }

  lemma DigitsRoundTrip(b: Bytes)
    requires |b| == 5
    ensures Octets(Digits(b)) == b
  {
    var ds := Digits(b);
    assert ds[1] / 4 == b[0] % 8 && ds[1] % 4 == b[1] / 64;
    assert ds[3] / 16 == b[1] % 2 && ds[3] % 16 == b[2] / 16;
    assert ds[4] / 2 == b[2] % 16 && ds[4] % 2 == b[3] / 128;
    assert ds[6] / 8 == b[3] % 4 && ds[6] % 8 == b[4] / 32;
    assert b[1] / 64 * 64 + b[1] / 2 % 32 * 2 + b[1] % 2 == b[1];
    assert b[3] / 128 * 128 + b[3] / 4 % 32 * 4 + b[3] % 4 == b[3];
  }

  /** Eight digits as one number of forty bits. */
  function DigitNumber(d: seq<Digit>): nat
    requires |d| == 8
  {
    d[0] as int * 0x8_0000_0000 + d[1] as int * 0x4000_0000 + d[2] as int * 0x200_0000 + d[3] as int * 0x10_0000 +
    d[4] as int * 0x8000 + d[5] as int * 0x400 + d[6] as int * 0x20 + d[7]
  }

  /** Five octets as one number of forty bits. */
  function OctetNumber(b: Bytes): nat
    requires |b| == 5
  {
    b[0] as int * 0x1_0000_0000 + b[1] as int * 0x100_0000 + b[2] as int * 0x1_0000 + b[3] as int * 0x100 + b[4]
  }

  /** The digits are the octets' own number, written to the base 32. */
  lemma DigitsSameNumber(b: Bytes)
    requires |b| == 5
    ensures DigitNumber(Digits(b)) == OctetNumber(b)
  {
    hide Octets;
    var ds := Digits(b);
    assert b[0] == ds[0] as int * 8 + b[0] % 8 && b[2] == b[2] / 16 * 16 + b[2] % 16 && b[4] == b[4] / 32 * 32 + ds[7];
    assert b[1] == b[1] / 64 * 64 + ds[2] as int * 2 + b[1] % 2;
    assert b[3] == b[3] / 128 * 128 + ds[5] as int * 4 + b[3] % 4;
  }

  function Symbols(ds: seq<Digit>): (s: string)
    ensures |s| == |ds| && forall i :: 0 <= i < |s| ==> s[i] == Symbol(ds[i])
  {
    seq(|ds|, i requires 0 <= i < |ds| => Symbol(ds[i]))
  }

  predicate AllSymbols(s: string) {
    forall i :: 0 <= i < |s| ==> IsSymbol(s[i])
  }

  function DigitsOf(s: string): (ds: seq<Digit>)
    requires AllSymbols(s)
    ensures |ds| == |s| && forall i :: 0 <= i < |s| ==> ds[i] == DigitOf(s[i])
  {
    seq(|s|, i requires 0 <= i < |s| => DigitOf(s[i]))
  }

  /** `b32encode` on whole quanta, where there is no padding to strip. */
  function Encode(b: Bytes): (s: string)
    requires |b| % 5 == 0
    ensures |s| == |b| / 5 * 8
  {
    if b == [] then "" else Symbols(Digits(b[..5])) + Encode(b[5..])
  }

  /** Base32 decoding, RFC 4648 section 6. */
  function Decode(s: string): Bytes
    requires |s| % 8 == 0 && AllSymbols(s)
  {
    if s == "" then [] else Octets(DigitsOf(s[..8])) + Decode(s[8..])
  }

  lemma {:induction false} EncodeRoundTrip(b: Bytes)
    requires |b| % 5 == 0
    ensures AllSymbols(Encode(b)) && Decode(Encode(b)) == b
  {
    if b != [] {
      hide Digits, Octets, Symbol, DigitOf, IsSymbol;
      var ds, tail := Digits(b[..5]), Encode(b[5..]);
      forall i | 0 <= i < 8
        ensures IsSymbol(Symbol(ds[i])) && DigitOf(Symbol(ds[i])) == ds[i]
      {
        SymbolRoundTrip(ds[i]);
      }
      EncodeRoundTrip(b[5..]);
      var s := Encode(b);
      assert s[..8] == Symbols(ds) && s[8..] == tail;
      assert DigitsOf(s[..8]) == ds;
      DigitsRoundTrip(b[..5]);
    }
  }

  // ------------------------------------------------------------ on paper

  /** The groups of four, joined by hyphens. */
  function Grouped(raw: string): string {
    if |raw| <= 4 then raw else raw[..4] + "-" + Grouped(raw[4..])
  }

  function Printed(derived: Bytes): string
    requires |derived| % 5 == 0
  {
    Grouped(Encode(derived))
  }

  function Without(s: string, removed: set<char>): string {
    if s == "" then ""
    else (if s[0] in removed then "" else [s[0]]) + Without(s[1..], removed)
  }

  /** What the installer does to the key file before enrolling it. */
  function Enrolled(file: string): string {
    Without(file, {'\r', '\n', ' ', '\t'})
  }

  lemma {:induction false} WithoutConcat(a: string, b: string, removed: set<char>)
    ensures Without(a + b, removed) == Without(a, removed) + Without(b, removed)
  {
    if a == "" {
      assert a + b == b;
    } else {
      assert (a + b)[1..] == a[1..] + b;
      WithoutConcat(a[1..], b, removed);
    }
  }

  lemma {:induction false} WithoutKeeps(s: string, removed: set<char>)
    requires forall i :: 0 <= i < |s| ==> s[i] !in removed
    ensures Without(s, removed) == s
  {
    if s != "" {
      WithoutKeeps(s[1..], removed);
    }
  }

  lemma {:induction false} UngroupGives(raw: string)
    requires AllSymbols(raw)
    ensures Without(Grouped(raw), {'-'}) == raw
  {
    if |raw| <= 4 {
      WithoutKeeps(raw, {'-'});
    } else {
      UngroupGives(raw[4..]);
      WithoutKeeps(raw[..4], {'-'});
      WithoutConcat(raw[..4] + "-", Grouped(raw[4..]), {'-'});
      WithoutConcat(raw[..4], "-", {'-'});
      assert "-"[1..] == "";
      assert Without("-", {'-'}) == "";
    }
  }

  /** Every fifth character is a hyphen and the others are base32 symbols. */
  lemma {:induction false} GroupedShape(raw: string)
    requires AllSymbols(raw) && raw != "" && |raw| % 4 == 0
    ensures |Grouped(raw)| == |raw| / 4 * 5 - 1
    ensures forall i :: 0 <= i < |Grouped(raw)| ==>
      if i % 5 == 4 then Grouped(raw)[i] == '-' else IsSymbol(Grouped(raw)[i])
  {
    if |raw| > 4 {
      GroupedShape(raw[4..]);
      var g, tail := Grouped(raw), Grouped(raw[4..]);
      forall i | 0 <= i < |g|
        ensures if i % 5 == 4 then g[i] == '-' else IsSymbol(g[i])
      {
        if i >= 5 {
          assert g[i] == tail[i - 5];
          assert i % 5 == (i - 5) % 5;
        }
      }
    }
  }

  lemma NothingElse()
    ensures Enrolled("\n") == "" && Enrolled(" ") == "" && Enrolled("\t\r\n") == ""
  {
    assert "\n"[1..] == "" && " "[1..] == "" && "\t\r\n"[1..] == "\r\n" && "\r\n"[1..] == "\n";
    assert Without("\n", {'\r', '\n', ' ', '\t'}) == "" && Without("\r\n", {'\r', '\n', ' ', '\t'}) == "";
  }

  /** The chain from derivation to keyslot. For every value of twenty octets: the sheet shows
      eight groups of four base32 symbols; the installer, which strips line ends, spaces and
      tabs, enrols exactly what the sheet shows; and dropping the hyphens and decoding gives
      the octets back. */
  lemma PrintedKey(derived: Bytes)
    requires |derived| == KEY_BYTES
    ensures var sheet := Printed(derived);
      && |sheet| == 39
      && (forall i :: 0 <= i < 39 ==> if i % 5 == 4 then sheet[i] == '-' else IsSymbol(sheet[i]))
      && Enrolled(sheet) == sheet && Enrolled(sheet + "\n") == sheet && Enrolled(" " + sheet + "\t\r\n") == sheet
      && AllSymbols(Without(sheet, {'-'})) && |Without(sheet, {'-'})| == 32
      && Decode(Without(sheet, {'-'})) == derived
  {
    hide Encode, Decode, Grouped;
    EncodeRoundTrip(derived);
    var raw := Encode(derived);
    GroupedShape(raw);
    UngroupGives(raw);
    var sheet := Printed(derived);
    WithoutKeeps(sheet, {'\r', '\n', ' ', '\t'});
    NothingElse();
    WithoutConcat(sheet, "\n", {'\r', '\n', ' ', '\t'});
    WithoutConcat(" " + sheet, "\t\r\n", {'\r', '\n', ' ', '\t'});
    WithoutConcat(" ", sheet, {'\r', '\n', ' ', '\t'});
  }

  /** Different octets print differently. */
  lemma PrintedInjective(a: Bytes, b: Bytes)
    requires |a| == KEY_BYTES && |b| == KEY_BYTES
    ensures Printed(a) == Printed(b) <==> a == b
  {
    PrintedKey(a);
    PrintedKey(b);
  }

  // ------------------------------------------------------------ from the seed

  function Ascii(s: string): (b: Bytes)
    ensures |b| == |s|
  {
    seq(|s|, i requires 0 <= i < |s| => s[i] as int % 256)
  }

  const SALT: Bytes := Ascii("sambuca-luks-salt-v1")
  const INFO: Bytes := Ascii("sambuca/luks/recovery-key/v1")

  /** The tail of `derive_luks_recovery_key`, from the BIP-39 seed on: the sheet decodes to
      the twenty octets RFC 5869 derives from the seed. */
  method DeriveRecoveryKey(mac: Mac, seed: Bytes) returns (sheet: string)
    requires MacLength(mac)
    ensures |sheet| == 39 && AllSymbols(Without(sheet, {'-'})) && |Without(sheet, {'-'})| == 32
    ensures IsOkm(mac, SALT, seed, INFO, KEY_BYTES, Decode(Without(sheet, {'-'})))
    ensures Decode(Without(sheet, {'-'})) == mac(mac(SALT, seed), INFO + [1])[..20]
  {
    hide Encode, Decode, Grouped, Without, IsOkm;
    var derived := HkdfSha256(mac, seed, SALT, INFO, KEY_BYTES);
    OkmLength(mac, SALT, seed, INFO, derived.value);
    OkmSpelt(mac, SALT, seed, INFO, KEY_BYTES, derived.value);
    PrintedKey(derived.value);
    sheet := Printed(derived.value);
  }

  lemma OkmLength(mac: Mac, salt: Bytes, ikm: Bytes, info: Bytes, okm: Bytes)
    requires IsOkm(mac, salt, ikm, info, KEY_BYTES, okm)
    ensures |okm| == KEY_BYTES
  {
  }
}
