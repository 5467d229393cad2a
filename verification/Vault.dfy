/** The recovery vault (apps/flasher/src/sambuca_flasher/vault.py): an encrypted document with
    an authenticated header, opened by answering questions. scrypt and AES-GCM are abstract;
    plaintext and associated data are ASCII JSON, so they stay texts here. */
module Vault {
  import opened Texts
  import opened Bytes
  import opened Json
  import opened JsonOrder
  import opened JsonText
  import opened VaultAnswers

  const SCHEMA := 1
  const NORM_VERSION := 1

  datatype Cost = Cost(n: int, r: int, p: int)

  datatype Primitives = Primitives(
    scrypt: (Bytes, Bytes, Cost) -> Bytes,
    encrypt: (Bytes, Bytes, Text, Text) -> Bytes,
    decrypt: (Bytes, Bytes, Bytes, Text) -> Option<Text>)

  const SCHEMA_KEY: Text := Lit("schema")
  const NORM_KEY: Text := Lit("norm_version")
  const FINGERPRINT: Text := Lit("fingerprint")
  const KDF: Text := Lit("kdf")
  const QUESTIONS: Text := Lit("questions")
  const NONCE: Text := Lit("nonce")
  const CIPHERTEXT: Text := Lit("ciphertext")
  const KDF_NAME: Text := Lit("name")
  const KDF_N: Text := Lit("n")
  const KDF_R: Text := Lit("r")
  const KDF_P: Text := Lit("p")
  const KDF_SALT: Text := Lit("salt")

  /** The default separators of `json.dumps`. */
  const SPACED: Text := [32]

  // ------------------------------------------------------------ hexadecimal

  function Hex(b: Bytes): Text {
    if b == [] then [] else [HexDigit(b[0] / 16), HexDigit(b[0] % 16)] + Hex(b[1..])
  }

  predicate IsAsciiSpace(c: CodePoint) {
    9 <= c <= 13 || c == 32
  }

  /** `bytes.fromhex`: white space between octets is skipped; `None` where it raises. */
  function FromHex(t: Text): Option<Bytes> {
    if t == [] then Some([])
    else if IsAsciiSpace(t[0]) then FromHex(t[1..])
    else if |t| >= 2 && IsHex(t[0]) && IsHex(t[1]) then
      match FromHex(t[2..])
      case Some(rest) => Some([HexValue(t[0]) * 16 + HexValue(t[1])] + rest)
      case None => None
    else None
  }

  lemma {:induction false} OctetsRoundTrip(b: Bytes)
    ensures FromHex(Hex(b)) == Some(b)
  {
    if b != [] {
      OctetsRoundTrip(b[1..]);
      var t := Hex(b);
      assert t[2..] == Hex(b[1..]);
      assert HexValue(t[0]) == b[0] / 16 && HexValue(t[1]) == b[0] % 16;
      assert b == [b[0]] + b[1..];
    }
  }

  // ------------------------------------------------------------ the document

  function TextItems(ts: seq<Text>): (vs: seq<Value>)
    ensures |vs| == |ts| && forall i :: 0 <= i < |vs| ==> vs[i] == Str(ts[i])
  {
    seq(|ts|, i requires 0 <= i < |ts| => Str(ts[i]))
  }

  function KdfValue(cost: Cost, salt: Bytes): Value {
    Obj([
      Field(KDF_NAME, Str(Lit("scrypt"))),
      Field(KDF_N, Int(cost.n)), Field(KDF_R, Int(cost.r)), Field(KDF_P, Int(cost.p)),
      Field(KDF_SALT, Str(Hex(salt)))
    ])
  }

  function HeaderFields(fingerprint: Text, cost: Cost, salt: Bytes, questions: seq<Text>): seq<Field> {
    [
      Field(SCHEMA_KEY, Int(SCHEMA)),
      Field(NORM_KEY, Int(NORM_VERSION)),
      Field(FINGERPRINT, Str(fingerprint)),
      Field(KDF, KdfValue(cost, salt)),
      Field(QUESTIONS, Arr(TextItems(questions)))
    ]
  }

  /** What the tag authenticates. */
  function Associated(header: seq<Field>): Text {
    Dumps(Obj(header), SPACED)
  }

  function DocFields(header: seq<Field>, nonce: Bytes, blob: Bytes): seq<Field> {
    header + [Field(NONCE, Str(Hex(nonce))), Field(CIPHERTEXT, Str(Hex(blob)))]
  }

  /** Everything chosen when a vault is created. */
  datatype Making = Making(
    payload: Value, questions: seq<Text>, fingerprint: Text, cost: Cost, salt: Bytes, nonce: Bytes)

  function HeaderFor(m: Making): seq<Field> {
    HeaderFields(m.fingerprint, m.cost, m.salt, m.questions)
  }

  /** The text of a vault written under this key. */
  function VaultText(prims: Primitives, key: Bytes, m: Making): Text {
    var header := HeaderFor(m);
    var blob := prims.encrypt(key, m.nonce, Dumps(m.payload, SPACED), Associated(header));
    Print(Obj(DocFields(header, m.nonce, blob)), SPACED)
  }

  // ------------------------------------------------------------ opening

  datatype OpenResult =
    | Payload(value: Value)
    | Unreadable
    | WrongSchema
    | UnknownVersion
    | WrongAnswers
    | Crashed

  /** What decryption is asked with. */
  datatype Sealed = Sealed(key: Bytes, nonce: Bytes, blob: Bytes, associated: Text)

  /** The header fields present in a document, in their fixed order. */
  function HeaderOf(doc: Value): seq<Field> {
    Present(doc, SCHEMA_KEY) + Present(doc, NORM_KEY) + Present(doc, FINGERPRINT) + Present(doc, KDF) + Present(doc, QUESTIONS)
  }

  function Present(doc: Value, key: Text): seq<Field> {
    match Get(doc, key)
    case Some(v) => [Field(key, v)]
    case None => []
  }

  /** `int(v)` on a number or bool. */
  function AsInt(v: Option<Value>): Option<int> {
    match v
    case Some(Int(n)) => Some(n)
    case Some(Bool(b)) => Some(if b then 1 else 0)
    case _ => None
  }

  /** `bytes.fromhex(v)` */
  function AsBytes(v: Option<Value>): Option<Bytes> {
    if v.Some? && v.value.Str? then FromHex(v.value.s) else None
  }

  function CostOf(kdf: Option<Value>): Option<Cost> {
    if kdf == None then None
    else
      match (AsInt(Get(kdf.value, KDF_N)), AsInt(Get(kdf.value, KDF_R)), AsInt(Get(kdf.value, KDF_P)))
      case (Some(n), Some(r), Some(p)) => Some(Cost(n, r, p))
      case _ => None
  }

  /** The joined answers under the normalisation version the document names. */
  function CanonicalFor(normalise: Normalise, doc: Value, answers: seq<Text>): Result<Bytes, OpenResult> {
    var version := if Get(doc, NORM_KEY) == None then Some(NORM_VERSION) else AsInt(Get(doc, NORM_KEY));
    if version == None then Err(Crashed)
    else if answers != [] && version.value != NORM_VERSION then Err(UnknownVersion)
    else
      match Frames(normalise, answers)
      case Some(b) => Ok(b)
      case None => Err(Crashed)
  }

  /** The inputs of decryption, or what goes wrong before it. The cost parameters are the
      document's own. */
  function Prepare(prims: Primitives, normalise: Normalise, doc: Value, answers: seq<Text>): Result<Sealed, OpenResult> {
    if !doc.Obj? then Err(Crashed)
    else if Get(doc, SCHEMA_KEY) == None || !Equal(Get(doc, SCHEMA_KEY).value, Int(SCHEMA)) then Err(WrongSchema)
    else
      match CanonicalFor(normalise, doc, answers)
      case Err(e) => Err(e)
      case Ok(canonical) =>
        var kdf := Get(doc, KDF);
        var salt := if kdf.Some? then AsBytes(Get(kdf.value, KDF_SALT)) else None;
        match (CostOf(kdf), salt)
        case (Some(cost), Some(s)) =>
          (match (AsBytes(Get(doc, NONCE)), AsBytes(Get(doc, CIPHERTEXT)))
           case (Some(nonce), Some(blob)) =>
             Ok(Sealed(prims.scrypt(canonical, s, cost), nonce, blob, Associated(HeaderOf(doc))))
           case _ => Err(WrongAnswers))
        case _ => Err(Crashed)
  }

  /** `open_vault` on the text of the file. */
  function Open(prims: Primitives, normalise: Normalise, text: Text, answers: seq<Text>): OpenResult {
    match Loads(text)
    case None => Unreadable
    case Some(doc) =>
      match Prepare(prims, normalise, doc, answers)
      case Err(e) => e
      case Ok(s) =>
        match prims.decrypt(s.key, s.nonce, s.blob, s.associated)
        case None => WrongAnswers
        case Some(plain) =>
          match Loads(plain)
          case Some(v) => Payload(v)
          case None => Crashed
  }

  // ------------------------------------------------------------ the file

  datatype Refused =
    | Weak(weakness: Weakness)
    | NotEncodable

  /** What a crash leaves: the vault's file and the temporary one. */
  datatype Disk = Disk(file: Option<Text>, temporary: Option<Text>)

  /** The disk while the temporary file is written. */
  function WriteMoments(file: Option<Text>, content: Text, written: nat): seq<Disk> {
    var half := content[..if written <= |content| then written else |content|];
    [Disk(file, Some([])), Disk(file, Some(half)), Disk(file, Some(content))]
  }

  /** The vault's file, and the temporary one beside it. `moments` records the disk after
      every operation on it. */
  class VaultFile {
    var file: Option<Text>
    var temporary: Option<Text>
    ghost var moments: seq<Disk>

    constructor ()
      ensures file == None && temporary == None && moments == []
    {
      file, temporary, moments := None, None, [];
    }

    method SetTemporary(content: Text)
      modifies this
      ensures file == old(file) && temporary == Some(content)
      ensures moments == old(moments) + [Disk(file, temporary)]
    {
      temporary := Some(content);
      moments := moments + [Disk(file, temporary)];
    }

    /** `write_text`: the file is opened empty, then filled; `written` is how much reaches the
        disk before the rest. */
    method WriteTemporary(content: Text, written: nat)
      modifies this
      ensures file == old(file) && temporary == Some(content)
      ensures moments == old(moments) + WriteMoments(file, content, written)
    {
      SetTemporary([]);
      SetTemporary(content[..if written <= |content| then written else |content|]);
      SetTemporary(content);
    }

    /** `create`: nothing changes when the answers are refused; otherwise the whole new text
        replaces the file at once and no temporary file is left. At every moment in between,
        wherever the write of the temporary file is interrupted, the vault's file is the old
        one or the whole new one. */
    method Create(prims: Primitives, normalise: Normalise, fold: Normalise, m: Making, answers: seq<Text>, written: nat)
      returns (refused: Option<Refused>)
      modifies this
      ensures refused == None <==> Strong(normalise, fold, m.questions, answers) && Frames(normalise, answers).Some?
      ensures refused.Some? ==> file == old(file) && temporary == old(temporary) && moments == old(moments)
      ensures refused == None ==>
        file == Some(VaultText(prims, prims.scrypt(Frames(normalise, answers).value, m.salt, m.cost), m))
      ensures refused == None ==> temporary == None
      ensures refused == None ==>
        var text := VaultText(prims, prims.scrypt(Frames(normalise, answers).value, m.salt, m.cost), m);
        moments == old(moments) + WriteMoments(old(file), text, written) + [Disk(file, None)]
      ensures forall i :: |old(moments)| <= i < |moments| ==> moments[i].file == old(file) || moments[i].file == file
    {
      var weakness := CheckAnswers(normalise, fold, m.questions, answers);
      if weakness.Some? {
        return Some(Weak(weakness.value));
      }
      var canonical := Canonical(normalise, answers);
      if canonical == None {
        return Some(NotEncodable);
      }
      var key := prims.scrypt(canonical.value, m.salt, m.cost);
      var text := VaultText(prims, key, m);
      WriteTemporary(text, written);
      file, temporary := temporary, None;
      moments := moments + [Disk(file, temporary)];
      return None;
    }
  }
}
