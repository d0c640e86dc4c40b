/** The file processor: the `salt ‖ iv ‖ ciphertext` container, the names
    given to the downloaded files and the guard in front of both directions.
    PBKDF2, AES-GCM and the random source are not modelled; they come in as
    the function values of a `Primitives` record and as explicit salt and IV
    arguments. */
module FileCrypto {
  import opened Wrappers

  type Byte = b: int | 0 <= b < 256

  type Bytes = seq<Byte>

  /** `crypto.getRandomValues(new Uint8Array(16))` and `(12)`. */
  const SaltLength := 16
  const IvLength := 12

  /** The offset where the ciphertext starts in an encrypted file. */
  const HeaderLength := SaltLength + IvLength

  /** The web-crypto calls the processor makes, as pure functions:
      `deriveKey(password, salt)` (PBKDF2 key material), AES-GCM encryption
      under a key and an IV, and AES-GCM decryption, which answers None where
      the source's promise rejects (wrong key, damaged data). Being
      functions, they give equal outputs for equal inputs. */
  datatype Primitives = Primitives(
    deriveKey: (string, Bytes) -> Bytes,
    encrypt: (Bytes, Bytes, Bytes) -> Bytes,
    decrypt: (Bytes, Bytes, Bytes) -> Option<Bytes>)

  /** AES-GCM's own promise: what was encrypted under a key and an IV is
      decrypted under the same key and IV. */
  ghost predicate Authenticates(p: Primitives) {
    forall key, iv, m :: p.decrypt(key, iv, p.encrypt(key, iv, m)) == Some(m)
  }

  /** The blob `[salt, iv, encryptedContent]`. */
  function Frame(salt: Bytes, iv: Bytes, ct: Bytes): (blob: Bytes)
    requires |salt| == SaltLength && |iv| == IvLength
    ensures |blob| == HeaderLength + |ct|
    ensures blob[..SaltLength] == salt
    ensures blob[SaltLength..HeaderLength] == iv
    ensures blob[HeaderLength..] == ct
  {
    salt + iv + ct
  }

  /** `Uint8Array.prototype.slice(lo, hi)` for non-negative bounds: both
      bounds are clamped to the length and a reversed range is empty. */
  function Slice(s: Bytes, lo: nat, hi: nat): (r: Bytes)
    ensures lo <= hi <= |s| ==> r == s[lo..hi]
    ensures |s| <= lo ==> r == []
    ensures lo <= |s| <= hi ==> r == s[lo..]
    ensures hi <= lo ==> r == []
  {
    var a := if lo < |s| then lo else |s|;
    var b := if hi < |s| then hi else |s|;
    if a < b then s[a..b] else []
  }

  /** The three parts a file to decrypt is read as. */
  datatype Container = Container(salt: Bytes, iv: Bytes, ciphertext: Bytes)

  /** `fileData.slice(0, 16)`, `.slice(16, 28)` and `.slice(28)`. The slices
      partition any input: a file shorter than the header leaves a short
      salt or IV and an empty ciphertext rather than an error. */
  function Unframe(data: Bytes): (c: Container)
    ensures c.salt + c.iv + c.ciphertext == data
    ensures |data| >= HeaderLength ==> |c.salt| == SaltLength && |c.iv| == IvLength
    ensures |data| < HeaderLength ==> c.ciphertext == []
  {
    Container(Slice(data, 0, SaltLength), Slice(data, SaltLength, HeaderLength),
              Slice(data, HeaderLength, |data|))
  }

  /** Reading a framed blob gives back exactly the salt, IV and ciphertext
      written into it. */
  lemma UnframeFrame(salt: Bytes, iv: Bytes, ct: Bytes)
    requires |salt| == SaltLength && |iv| == IvLength
    ensures Unframe(Frame(salt, iv, ct)) == Container(salt, iv, ct)
  {
  }

  /** Every file of at least header length is the frame of its own parts. */
  lemma FrameUnframe(data: Bytes)
    requires |data| >= HeaderLength
    ensures var c := Unframe(data); Frame(c.salt, c.iv, c.ciphertext) == data
  {
  }

  const EncryptedPrefix := "encrypted_"
  const EncryptedSuffix := ".enc"
  const DecryptedPrefix := "decrypted_"

  /** `` `encrypted_${file.name}.enc` ``. */
  function EncryptedName(name: string): string {
    EncryptedPrefix + name + EncryptedSuffix
  }

  /** `s.replace(/^p/, '')` for a literal p: removes p once, and only at the
      start. */
  function StripPrefix(s: string, p: string): (r: string)
    ensures p <= s ==> p + r == s
    ensures !(p <= s) ==> r == s
  {
    if p <= s then s[|p|..] else s
  }

  /** `s.replace(/p$/, '')` for a literal p: removes p once, and only at the
      end. */
  function StripSuffix(s: string, p: string): (r: string)
    ensures IsSuffix(p, s) ==> r + p == s
    ensures !IsSuffix(p, s) ==> r == s
  {
    if IsSuffix(p, s) then s[..|s| - |p|] else s
  }

  predicate IsSuffix(p: string, s: string) {
    |p| <= |s| && s[|s| - |p|..] == p
  }

  /** The stem the decrypted file is named after. */
  function OriginalName(name: string): string {
    StripSuffix(StripPrefix(name, EncryptedPrefix), EncryptedSuffix)
  }

  /** `` `decrypted_${originalName}` ``. */
  function DecryptedName(name: string): string {
    DecryptedPrefix + OriginalName(name)
  }

  /** Decrypting a file named by encryption names it after the original. */
  lemma {:induction false} NameRoundTrip(name: string)
    ensures DecryptedName(EncryptedName(name)) == DecryptedPrefix + name
  {
    var e := EncryptedName(name);
    assert e == EncryptedPrefix + (name + EncryptedSuffix);
    assert EncryptedPrefix <= e;
    var s := StripPrefix(e, EncryptedPrefix);
    assert s == name + EncryptedSuffix;
    assert IsSuffix(EncryptedSuffix, s);
  }

  /** Each strip fires at most once: a name carrying the prefix twice keeps
      the second copy, and one ending in `.enc.enc` keeps one `.enc`. */
  lemma {:induction false} StripsOnce(name: string)
    ensures StripPrefix(EncryptedPrefix + EncryptedPrefix + name, EncryptedPrefix)
            == EncryptedPrefix + name
    ensures StripSuffix(name + EncryptedSuffix + EncryptedSuffix, EncryptedSuffix)
            == name + EncryptedSuffix
  {
    var a := EncryptedPrefix + EncryptedPrefix + name;
    assert a == EncryptedPrefix + (EncryptedPrefix + name);
    assert EncryptedPrefix <= a;
    var b := name + EncryptedSuffix + EncryptedSuffix;
    assert b[|b| - |EncryptedSuffix|..] == EncryptedSuffix;
    assert b[..|b| - |EncryptedSuffix|] == name + EncryptedSuffix;
  }

  /** A name with neither marker only gains the `decrypted_` prefix. */
  lemma UnmarkedName(name: string)
    requires !(EncryptedPrefix <= name) && !IsSuffix(EncryptedSuffix, name)
    ensures DecryptedName(name) == DecryptedPrefix + name
  {
  }

  /** A picked file: its name and its bytes. */
  datatype File = File(name: string, content: Bytes)

  /** What `handleProcess` ends in: the alert asking for a file and a
      password, the alert reporting a failed operation, or a download. */
  datatype Outcome = Refused | Failed | Download(name: string, data: Bytes)

  /** The encrypting branch, with the fresh salt and IV as arguments. */
  function EncryptFile(p: Primitives, f: File, password: string, salt: Bytes, iv: Bytes): (r: Outcome)
    requires |salt| == SaltLength && |iv| == IvLength
    ensures r.Download? && r.name == EncryptedName(f.name)
    ensures Unframe(r.data) == Container(salt, iv, p.encrypt(p.deriveKey(password, salt), iv, f.content))
  {
    var key := p.deriveKey(password, salt);
    var blob := Frame(salt, iv, p.encrypt(key, iv, f.content));
    UnframeFrame(salt, iv, p.encrypt(key, iv, f.content));
    Download(EncryptedName(f.name), blob)
  }

  /** The decrypting branch: the key is derived from the password and the
      salt read back from the file. */
  function DecryptFile(p: Primitives, f: File, password: string): (r: Outcome)
    ensures r != Refused
    ensures var c := Unframe(f.content);
            var m := p.decrypt(p.deriveKey(password, c.salt), c.iv, c.ciphertext);
            (r == Failed <==> m.None?) && (m.Some? ==> r == Download(DecryptedName(f.name), m.value))
  {
    var c := Unframe(f.content);
    var key := p.deriveKey(password, c.salt);
    match p.decrypt(key, c.iv, c.ciphertext)
    case None => Failed
    case Some(plain) => Download(DecryptedName(f.name), plain)
  }

  /** `handleProcess`: the guard, then the branch the mode selects. The salt
      and IV stand for the random values an encryption draws. */
  function Process(p: Primitives, file: Option<File>, password: string, encrypt: bool,
                   salt: Bytes, iv: Bytes): (r: Outcome)
    requires encrypt ==> |salt| == SaltLength && |iv| == IvLength
    ensures r == Refused <==> file.None? || password == ""
    ensures r.Download? && encrypt ==> r.name == EncryptedName(file.value.name)
    ensures r.Download? && !encrypt ==> r.name == DecryptedName(file.value.name)
  {
    if file.None? || password == "" then Refused
    else if encrypt then EncryptFile(p, file.value, password, salt, iv)
    else DecryptFile(p, file.value, password)
  }

  /** Decrypting an encrypted file with the same password hands the
      decryption the very key, IV and ciphertext the encryption used. */
  lemma SameKeyAndIv(p: Primitives, f: File, password: string, salt: Bytes, iv: Bytes)
    requires |salt| == SaltLength && |iv| == IvLength
    ensures var e := EncryptFile(p, f, password, salt, iv);
            var c := Unframe(e.data);
            var key := p.deriveKey(password, salt);
            && p.deriveKey(password, c.salt) == key
            && c.iv == iv
            && c.ciphertext == p.encrypt(key, iv, f.content)
  {
  }

  /** With an authenticating cipher, encrypting then decrypting a file with
      the same password downloads the original bytes as
      `decrypted_<name>`. */
  lemma {:induction false} FileRoundTrip(p: Primitives, f: File, password: string,
                                         salt: Bytes, iv: Bytes, salt2: Bytes, iv2: Bytes)
    requires Authenticates(p)
    requires password != "" && |salt| == SaltLength && |iv| == IvLength
    ensures var e := Process(p, Some(f), password, true, salt, iv);
            e.Download? &&
            Process(p, Some(File(e.name, e.data)), password, false, salt2, iv2)
              == Download(DecryptedPrefix + f.name, f.content)
  {
    var e := EncryptFile(p, f, password, salt, iv);
    var key := p.deriveKey(password, salt);
    SameKeyAndIv(p, f, password, salt, iv);
    assert p.decrypt(key, iv, p.encrypt(key, iv, f.content)) == Some(f.content);
    NameRoundTrip(f.name);
  }
}
