/** The standard security handler, revisions 2 to 4 (src/crypto/encryption.rs): computing the O and U entries
    and validating passwords against them. MD5 is any function to 16 bytes. */
module Password {
  import opened Bits
  import opened Rc4

  type Hash = s: seq<byte> | |s| == 16 witness Repeat(0 as byte, 16)
  type Md5 = seq<byte> -> Hash
  type Padded = s: seq<byte> | |s| == 32 witness PADDING

  const PADDING: seq<byte> := [
    0x28, 0xBF, 0x4E, 0x5E, 0x4E, 0x75, 0x8A, 0x41, 0x64, 0x00, 0x4E, 0x56, 0xFF, 0xFA, 0x01, 0x08,
    0x2E, 0x2E, 0x00, 0xB6, 0xD0, 0x68, 0x3E, 0x80, 0x2F, 0x0C, 0xA9, 0xFE, 0x64, 0x53, 0x69, 0x7A]

  datatype EncryptionInfo = EncryptionInfo(
    revision: Word, keyLength: Word, permissions: Word,
    ownerKey: seq<byte>, userKey: seq<byte>, fileId: Option<seq<byte>>)

  type Bytes = Result<seq<byte>, CryptoError>

  /** `pad_password`: at most 32 bytes of the password, completed from the padding string. */
  function Pad(password: seq<byte>): Padded {
    var len := Min(|password|, 32);
    password[..len] + PADDING[len..]
  }

  function LittleEndian(v: Word): (s: seq<byte>) {
    [v % 256, v / 256 % 256, v / 0x1_0000 % 256, v / 0x100_0000]
  }

  function KeyBytes(info: EncryptionInfo): (n: nat)
    ensures n <= 16
  {
    Min(info.keyLength / 8, 16)
  }

  /** From revision 3 on, the hash input is a slice of `keyLength / 8` bytes of a 16-byte digest:
      for a longer key there is no such slice. */
  predicate KeyLengthUsable(info: EncryptionInfo) {
    info.revision >= 3 ==> info.keyLength / 8 <= 16
  }

  function Rehashed(md5: Md5, h: Hash, take: nat, n: nat): Hash
    requires take <= 16
  {
    if n == 0 then h else md5(Rehashed(md5, h, take, n - 1)[..take])
  }

  function KeyHashInput(info: EncryptionInfo, padded: Padded): seq<byte> {
    padded + info.ownerKey + LittleEndian(info.permissions) + (if info.fileId.Some? then info.fileId.value else [])
  }

  /** The file encryption key for a padded user password. */
  function FileKey(md5: Md5, info: EncryptionInfo, padded: Padded): (key: seq<byte>)
    requires KeyLengthUsable(info)
    ensures |key| == KeyBytes(info)
  {
    var h := md5(KeyHashInput(info, padded));
    (if info.revision >= 3 then Rehashed(md5, h, info.keyLength / 8, 50) else h)[..KeyBytes(info)]
  }

  /** `compute_key_standard_with_padded` as a function. */
  function StandardKey(md5: Md5, info: EncryptionInfo, padded: Padded): Bytes {
    if KeyLengthUsable(info) then Ok(FileKey(md5, info, padded)) else Err(CryptoError.Panic)
  }

  /** The key derived from the owner password. */
  function OwnerRc4Key(md5: Md5, info: EncryptionInfo, ownerPassword: seq<byte>): (key: seq<byte>)
    ensures |key| == KeyBytes(info)
  {
    var h := md5(Pad(ownerPassword));
    (if info.revision >= 3 then Rehashed(md5, h, 16, 50) else h)[..KeyBytes(info)]
  }

  function XorKey(key: Key, i: byte): Key {
    seq(|key|, n requires 0 <= n < |key| => Xor(key[n], i))
  }

  /** RC4 under the keys `key ^ 0`, `key ^ 1`, ..., `key ^ (n - 1)`, in that order. */
  function Layered(data: seq<byte>, key: Key, n: nat): (r: seq<byte>)
    requires n <= 256
    ensures |r| == |data|
  {
    if n == 0 then data else Cipher(Layered(data, key, n - 1), XorKey(key, n - 1))
  }

  /** RC4 under the keys `key ^ (n - 1)`, ..., `key ^ 0`, in that order. */
  function Peeled(data: seq<byte>, key: Key, n: nat): (r: seq<byte>)
    requires n <= 256
    ensures |r| == |data|
    decreases n
  {
    if n == 0 then data else Peeled(Cipher(data, XorKey(key, n - 1)), key, n - 1)
  }

  function OwnerEntry(md5: Md5, info: EncryptionInfo, ownerPassword: seq<byte>, userPassword: seq<byte>): Bytes {
    var key := OwnerRc4Key(md5, info, ownerPassword);
    if key == [] then Err(InvalidKey)
    else if info.revision == 2 then Ok(Cipher(Pad(userPassword), key))
    else Ok(Layered(Pad(userPassword), key, 20))
  }

  function UserHashInput(info: EncryptionInfo): seq<byte> {
    PADDING + if info.fileId.Some? then info.fileId.value else []
  }

  function UserEntry(md5: Md5, info: EncryptionInfo, userPassword: seq<byte>, key: seq<byte>): Bytes {
    if key == [] then Err(InvalidKey)
    else if info.revision == 2 then Ok(Cipher(Pad(userPassword), key))
    else Ok(Layered(md5(UserHashInput(info)), key, 20) + Repeat(0 as byte, 16))
  }

  /** The comparison both validators end with. */
  predicate Matches(info: EncryptionInfo, expected: Bytes) {
    expected.Ok? &&
    if info.revision >= 3 then
      |info.userKey| >= 16 && |expected.value| >= 16 && info.userKey[..16] == expected.value[..16]
    else info.userKey == expected.value
  }

  predicate Supported(info: EncryptionInfo) {
    2 <= info.revision <= 4
  }

  type Verdict = Result<bool, CryptoError>

  /** `validate_user_password` as a function. */
  function UserVerdict(md5: Md5, info: EncryptionInfo, password: seq<byte>): Verdict {
    if !Supported(info) then Ok(false)
    else if !KeyLengthUsable(info) then Err(CryptoError.Panic)
    else Ok(Matches(info, UserEntry(md5, info, password, FileKey(md5, info, Pad(password)))))
  }

  /** What decrypting the O entry with the owner password yields. */
  function Recovered(md5: Md5, info: EncryptionInfo, password: seq<byte>): Bytes {
    var key := OwnerRc4Key(md5, info, password);
    if key == [] then Err(InvalidKey)
    else if info.revision == 2 then Ok(Cipher(info.ownerKey, key))
    else Ok(Peeled(info.ownerKey, key, 20))
  }

  /** `validate_owner_password` as a function. */
  function OwnerVerdict(md5: Md5, info: EncryptionInfo, password: seq<byte>): Verdict {
    var data := Recovered(md5, info, password);
    if !Supported(info) || data.Err? || |data.value| < 32 then Ok(false)
    else if !KeyLengthUsable(info) then Err(CryptoError.Panic)
    else Ok(Matches(info, UserEntry(md5, info, data.value[..32], FileKey(md5, info, data.value[..32]))))
  }

  // ---------------------------------------------------------------- the source's methods

  lemma RehashedStep(md5: Md5, h: Hash, take: nat, n: nat)
    requires take <= 16
    ensures Rehashed(md5, h, take, n + 1) == md5(Rehashed(md5, h, take, n)[..take])
  {
  }

  lemma LayeredStep(data: seq<byte>, key: Key, n: nat)
    requires n < 256
    ensures Layered(data, key, n + 1) == Cipher(Layered(data, key, n), XorKey(key, n))
    ensures Peeled(data, key, n + 1) == Peeled(Cipher(data, XorKey(key, n)), key, n)
  {
  }

  lemma LayeredNone(data: seq<byte>, key: Key)
    ensures Layered(data, key, 0) == Peeled(data, key, 0) == data
  {
  }

  /** Four bytes that give a word, the least significant first. */
  predicate FourBytes(p: seq<byte>, v: nat) {
    |p| == 4 && p[0] as int + 256 * p[1] as int + 65_536 * p[2] as int + 16_777_216 * p[3] as int == v
  }

  /** `digests` starts with the digest of `input`, and each of the others is that of the first `take` bytes of the one
      before it. */
  ghost predicate DigestChain(md5: Md5, digests: seq<Hash>, input: seq<byte>, take: nat) {
    && |digests| > 0 && digests[0] == md5(input) && (|digests| > 1 ==> take <= 16)
    && forall i :: 0 <= i < |digests| - 1 ==> digests[i + 1] == md5(digests[i][..take])
  }

  /** A file key: the digest of the padded password, the O entry, the permissions, least significant byte first, and the
      file id, rehashed fifty times from revision 3 on, as many bytes of it as the key has, sixteen at most. */
  ghost predicate IsFileKey(md5: Md5, info: EncryptionInfo, padded: Padded, key: seq<byte>) {
    exists p, digests ::
      && FourBytes(p, info.permissions)
      && DigestChain(md5, digests,
           padded + info.ownerKey + p + (if info.fileId.Some? then info.fileId.value else []), info.keyLength / 8)
      && |digests| == (if info.revision >= 3 then 51 else 1)
      && key == digests[|digests| - 1][..if info.keyLength / 8 < 16 then info.keyLength / 8 else 16]
  }

  lemma LittleEndianBytes(v: Word)
    ensures FourBytes(LittleEndian(v), v)
  {
    var a, b, c := v / 256, v / 0x1_0000, v / 0x100_0000;
    assert v == 256 * a + v % 256 && a == 256 * b + a % 256 && b == 256 * c + b % 256;
  }

  lemma {:induction false} ChainOf(md5: Md5, input: seq<byte>, take: nat, n: nat) returns (digests: seq<Hash>)
    requires n > 0 ==> take <= 16
    ensures DigestChain(md5, digests, input, take) && |digests| == n + 1
    ensures digests[n] == if n == 0 then md5(input) else Rehashed(md5, md5(input), take, n)
  {
    hide Rehashed;
    if n == 0 {
      digests := [md5(input)];
    } else {
      var front := ChainOf(md5, input, take, n - 1);
      RehashedNone(md5, md5(input), take);
      RehashedStep(md5, md5(input), take, n - 1);
      digests := front + [Rehashed(md5, md5(input), take, n)];
    }
  }

  lemma FileKeyIs(md5: Md5, info: EncryptionInfo, padded: Padded)
    requires KeyLengthUsable(info)
    ensures IsFileKey(md5, info, padded, FileKey(md5, info, padded))
  {
    hide Rehashed, DigestChain, FourBytes;
    LittleEndianBytes(info.permissions);
    var p := LittleEndian(info.permissions);
    var digests := ChainOf(md5, KeyHashInput(info, padded), info.keyLength / 8, if info.revision >= 3 then 50 else 0);
    assert FourBytes(p, info.permissions);
    assert KeyHashInput(info, padded) ==
      padded + info.ownerKey + p + (if info.fileId.Some? then info.fileId.value else []);
  }

  /** `compute_key_standard_with_padded`. */
  method ComputeKeyStandardWithPadded(md5: Md5, info: EncryptionInfo, padded: Padded) returns (r: Bytes)
    ensures r == StandardKey(md5, info, padded)
    ensures r.Ok? <==> (info.revision >= 3 ==> info.keyLength < 136)
    ensures r.Ok? ==> IsFileKey(md5, info, padded, r.value)
  {
    if KeyLengthUsable(info) { FileKeyIs(md5, info, padded); }
    ghost var spec := StandardKey(md5, info, padded);
    var hashInput: seq<byte> := padded;
    hashInput := hashInput + info.ownerKey;
    hashInput := hashInput + LittleEndian(info.permissions);
    if info.fileId.Some? {
      hashInput := hashInput + info.fileId.value;
    }
    HashInputIs(info, padded, hashInput);
    var key: Hash := md5(hashInput);
    ghost var first := key;
    if info.revision >= 3 {
      var n := info.keyLength / 8;
      if n > |key| {
        return Err(CryptoError.Panic);
      }
      assert Rehashed(md5, first, n, 0) == first by { RehashedNone(md5, first, n); }
      for i := 0 to 50
        invariant key == Rehashed(md5, first, n, i)
      {
        RehashedStep(md5, first, n, i);
        key := md5(key[..n]);
      }
    }
    return Ok(key[..Min(info.keyLength / 8, 16)]);
  }

  lemma HashInputIs(info: EncryptionInfo, padded: Padded, s: seq<byte>)
    requires var base := padded + info.ownerKey + LittleEndian(info.permissions);
      s == if info.fileId.Some? then base + info.fileId.value else base
    ensures s == KeyHashInput(info, padded)
  {
    assert info.fileId.None? ==> s + [] == s;
  }

  lemma RehashedNone(md5: Md5, h: Hash, take: nat)
    requires take <= 16
    ensures Rehashed(md5, h, take, 0) == h
  {
  }

  /** `compute_key_standard`, for a given user password. */
  method ComputeKeyStandard(md5: Md5, info: EncryptionInfo, userPassword: seq<byte>) returns (r: Bytes)
    ensures r == StandardKey(md5, info, Pad(userPassword))
    ensures r.Ok? <==> (info.revision >= 3 ==> info.keyLength < 136)
    ensures r.Ok? ==> IsFileKey(md5, info, Pad(userPassword), r.value)
  {
    r := ComputeKeyStandardWithPadded(md5, info, Pad(userPassword));
  }

  /** The digest loop that the O entry and the owner validator share. */
  method OwnerDigestKey(md5: Md5, info: EncryptionInfo, ownerPassword: seq<byte>) returns (key: seq<byte>)
    ensures key == OwnerRc4Key(md5, info, ownerPassword)
  {
    hide Rehashed;
    var digest: Hash := md5(Pad(ownerPassword));
    ghost var first := digest;
    if info.revision >= 3 {
      RehashedNone(md5, first, 16);
      for i := 0 to 50
        invariant digest == Rehashed(md5, first, 16, i)
      {
        RehashedStep(md5, first, 16, i);
        assert digest[..16] == digest;
        digest := md5(digest);
      }
    }
    key := digest[..Min(info.keyLength / 8, 16)];
  }

  /** `for b in &mut k { *b ^= i }` */
  method XorInto(key: seq<byte>, i: byte) returns (k: seq<byte>)
    requires key != []
    ensures k == XorKey(key, i)
  {
    hide Xor;
    k := key;
    for n := 0 to |key|
      invariant |k| == |key| && k[n..] == key[n..]
      invariant forall m :: 0 <= m < n ==> k[m] == Xor(key[m], i)
    {
      assert k[n] == key[n] by { assert k[n..][0] == key[n..][0]; }
      k := k[n := Xor(k[n], i)];
      assert k[n + 1..] == key[n + 1..];
    }
  }

  /** `compute_owner_key_standard`. */
  method ComputeOwnerKeyStandard(md5: Md5, info: EncryptionInfo, ownerPassword: seq<byte>, userPassword: seq<byte>)
    returns (r: Bytes)
    ensures r == OwnerEntry(md5, info, ownerPassword, userPassword)
  {
    hide OwnerRc4Key, Cipher, XorKey, Layered, Pad;
    var key := OwnerDigestKey(md5, info, ownerPassword);
    var data: seq<byte> := Pad(userPassword);
    if info.revision == 2 {
      r := Rc4Cipher(data, key);
      return;
    }
    if key == [] {
      r := Rc4Cipher(data, key);
      return;
    }
    LayeredNone(data, key);
    for i := 0 to 20
      invariant data == Layered(Pad(userPassword), key, i)
    {
      LayeredStep(Pad(userPassword), key, i);
      var k := XorInto(key, i);
      var out := Rc4Cipher(data, k);
      data := out.value;
    }
    return Ok(data);
  }

  lemma XorKeyZero(key: Key)
    ensures XorKey(key, 0) == key
  {
    hide Xor;
    forall n | 0 <= n < |key| ensures XorKey(key, 0)[n] == key[n] { XorZero(key[n]); }
  }

  /** `compute_user_key_standard`. */
  method ComputeUserKeyStandard(md5: Md5, info: EncryptionInfo, userPassword: seq<byte>, encryptionKey: seq<byte>)
    returns (r: Bytes)
    ensures r == UserEntry(md5, info, userPassword, encryptionKey)
  {
    hide Cipher, XorKey, Layered, Pad;
    var paddedUser := Pad(userPassword);
    if info.revision == 2 {
      r := Rc4Cipher(paddedUser, encryptionKey);
      return;
    }
    var input := PADDING;
    if info.fileId.Some? {
      input := input + info.fileId.value;
    }
    assert PADDING + [] == PADDING;
    assert input == UserHashInput(info);
    var hash: seq<byte> := md5(input);
    ghost var first := hash;
    r := Rc4Cipher(hash, encryptionKey);
    if r.Err? {
      return;
    }
    hash := r.value;
    XorKeyZero(encryptionKey);
    LayeredNone(first, encryptionKey);
    LayeredStep(first, encryptionKey, 0);
    for i := 1 to 20
      invariant hash == Layered(first, encryptionKey, i)
    {
      LayeredStep(first, encryptionKey, i);
      var k := XorInto(encryptionKey, i);
      var out := Rc4Cipher(hash, k);
      hash := out.value;
    }
    return Ok(hash + Repeat(0 as byte, 32 - |hash|));
  }

  method CompareUserKey(info: EncryptionInfo, expected: seq<byte>) returns (ok: bool)
    ensures ok == Matches(info, Ok(expected))
  {
    if info.revision >= 3 {
      ok := |info.userKey| >= 16 && |expected| >= 16 && info.userKey[..16] == expected[..16];
    } else {
      ok := info.userKey == expected;
    }
  }

  /** `validate_user_password`. */
  method ValidateUserPassword(md5: Md5, info: EncryptionInfo, password: seq<byte>) returns (r: Verdict)
    ensures r == UserVerdict(md5, info, password)
    ensures r == Err(CryptoError.Panic) <==> 3 <= info.revision <= 4 && info.keyLength >= 136
    ensures r == Ok(true) <==>
      && 2 <= info.revision <= 4 && info.keyLength >= 8 && (info.revision >= 3 ==> info.keyLength < 136)
      && Agrees(info, UserEntry(md5, info, password, FileKey(md5, info, Pad(password))).value)
  {
    hide FileKey, UserEntry, Pad, Agrees;
    UserAccepted(md5, info, password);
    if !(2 <= info.revision <= 4) {
      return Ok(false);
    }
    var key := ComputeKeyStandard(md5, info, password);
    if key.Err? {
      return Err(key.error);
    }
    var expected := ComputeUserKeyStandard(md5, info, password, key.value);
    if expected.Err? {
      return Ok(false);
    }
    var ok := CompareUserKey(info, expected.value);
    return Ok(ok);
  }

  /** `validate_owner_password`. */
  method ValidateOwnerPassword(md5: Md5, info: EncryptionInfo, password: seq<byte>) returns (r: Verdict)
    ensures r == OwnerVerdict(md5, info, password)
    ensures r == Err(CryptoError.Panic) <==> 3 <= info.revision <= 4 && info.keyLength >= 136 && |info.ownerKey| >= 32
    ensures r == Ok(true) <==>
      && 2 <= info.revision <= 4 && info.keyLength >= 8 && (info.revision >= 3 ==> info.keyLength < 136)
      && Recovered(md5, info, password).Ok? && |Recovered(md5, info, password).value| >= 32
      && var padded := Recovered(md5, info, password).value[..32];
         Agrees(info, UserEntry(md5, info, padded, FileKey(md5, info, padded)).value)
  {
    hide FileKey, UserEntry, OwnerRc4Key, Cipher, XorKey, Peeled, Agrees;
    OwnerPanics(md5, info, password);
    OwnerAccepted(md5, info, password);
    if !(2 <= info.revision <= 4) {
      return Ok(false);
    }
    var key := OwnerDigestKey(md5, info, password);
    var data := info.ownerKey;
    if info.revision == 2 {
      var out := Rc4Cipher(data, key);
      if out.Err? {
        return Ok(false);
      }
      data := out.value;
    } else {
      if key == [] {
        return Ok(false);
      }
      for i := 20 downto 0
        invariant Peeled(data, key, i) == Peeled(info.ownerKey, key, 20)
      {
        LayeredStep(data, key, i);
        var k := XorInto(key, i);
        var out := Rc4Cipher(data, k);
        data := out.value;
      }
      LayeredNone(data, key);
    }
    if |data| < 32 {
      return Ok(false);
    }
    var padded: Padded := data[..32];
    var fileKey := ComputeKeyStandardWithPadded(md5, info, padded);
    if fileKey.Err? {
      return Err(fileKey.error);
    }
    var expected := ComputeUserKeyStandard(md5, info, data[..32], fileKey.value);
    if expected.Err? {
      return Ok(false);
    }
    var ok := CompareUserKey(info, expected.value);
    return Ok(ok);
  }

  /** Validating an owner password stops the program exactly in revisions 3 and 4, for a key of 136 bits or more
      and an O entry of at least 32 bytes. */
  lemma OwnerPanics(md5: Md5, info: EncryptionInfo, password: seq<byte>)
    ensures OwnerVerdict(md5, info, password) == Err(CryptoError.Panic) <==>
      3 <= info.revision <= 4 && info.keyLength >= 136 && |info.ownerKey| >= 32
  {
    hide FileKey, UserEntry, OwnerRc4Key, Cipher, XorKey, Peeled, Matches;
    if info.keyLength >= 136 {
      assert |OwnerRc4Key(md5, info, password)| == 16;
      assert Recovered(md5, info, password).Ok?;
    }
  }

  /** Such an input: revision 3 with a key of 256 bits, whatever the rest. */
  lemma LongKeyPanics(md5: Md5, info: EncryptionInfo, password: seq<byte>)
    requires info.revision == 3 && info.keyLength == 256
    ensures UserVerdict(md5, info, password) == Err(CryptoError.Panic)
    ensures |info.ownerKey| == 32 ==> OwnerVerdict(md5, info, password) == Err(CryptoError.Panic)
  {
    hide FileKey, UserEntry, OwnerRc4Key, Cipher, XorKey, Peeled, Matches;
    OwnerPanics(md5, info, password);
  }

  // ---------------------------------------------------------------- what the entries are

  /** The key of a layer: every byte of the key with the bits of the layer's number flipped. */
  lemma LayerKey(key: Key, i: byte, n: nat, b: nat)
    requires n < |key| && b < 8
    ensures |XorKey(key, i)| == |key| && Bit(XorKey(key, i)[n], b) == (Bit(key[n], b) != Bit(i, b))
  {
    hide Bit, Xor;
    XorBit(key[n], i, b);
  }

  /** Twenty layers of RC4, the first under the layer key 0 and the last under 19. */
  ghost predicate TwentyUp(steps: seq<seq<byte>>, data: seq<byte>, key: Key, out: seq<byte>) {
    |steps| == 21 && steps[0] == data && steps[20] == out &&
    forall i :: 0 <= i < 20 ==> steps[i + 1] == Cipher(steps[i], XorKey(key, i))
  }

  /** Twenty layers of RC4, the first under the layer key 19 and the last under 0. */
  ghost predicate TwentyDown(steps: seq<seq<byte>>, data: seq<byte>, key: Key, out: seq<byte>) {
    |steps| == 21 && steps[0] == data && steps[20] == out &&
    forall i :: 0 <= i < 20 ==> steps[i + 1] == Cipher(steps[i], XorKey(key, 19 - i))
  }

  lemma LayersUp(data: seq<byte>, key: Key) returns (steps: seq<seq<byte>>)
    ensures TwentyUp(steps, data, key, Layered(data, key, 20))
  {
    hide Cipher, XorKey, Layered;
    steps := seq(21, i requires 0 <= i < 21 => Layered(data, key, i));
    LayeredNone(data, key);
    forall i | 0 <= i < 20 ensures steps[i + 1] == Cipher(steps[i], XorKey(key, i)) {
      LayeredStep(data, key, i);
    }
  }

  lemma {:induction false} PeelsDown(data: seq<byte>, key: Key, n: nat) returns (steps: seq<seq<byte>>)
    requires n <= 20
    ensures |steps| == n + 1 && steps[0] == data && steps[n] == Peeled(data, key, n)
    ensures forall i :: 0 <= i < n ==> steps[i + 1] == Cipher(steps[i], XorKey(key, n - 1 - i))
    decreases n
  {
    hide Cipher, XorKey, Peeled;
    if n == 0 {
      LayeredNone(data, key);
      steps := [data];
    } else {
      LayeredStep(data, key, n - 1);
      var rest := PeelsDown(Cipher(data, XorKey(key, n - 1)), key, n - 1);
      steps := [data] + rest;
      forall i | 0 <= i < n ensures steps[i + 1] == Cipher(steps[i], XorKey(key, n - 1 - i)) {
        if i > 0 { assert steps[i + 1] == rest[i] && steps[i] == rest[i - 1]; }
      }
    }
  }

  /** The key of an owner password: the digest of the padded password, rehashed whole fifty times from revision 3 on, as
      many bytes of it as the key has, sixteen at most. */
  lemma OwnerKeyIs(md5: Md5, info: EncryptionInfo, ownerPassword: seq<byte>)
    ensures exists digests ::
      && DigestChain(md5, digests, Pad(ownerPassword), 16) && |digests| == (if info.revision >= 3 then 51 else 1)
      && OwnerRc4Key(md5, info, ownerPassword) ==
          digests[|digests| - 1][..if info.keyLength / 8 < 16 then info.keyLength / 8 else 16]
  {
    hide Rehashed, DigestChain, Pad;
    var digests := ChainOf(md5, Pad(ownerPassword), 16, if info.revision >= 3 then 50 else 0);
    assert OwnerRc4Key(md5, info, ownerPassword) == digests[|digests| - 1][..KeyBytes(info)];
  }

  /** The O entry is the padded user password under that key, in one layer or in twenty; recovering takes the entry
      through the same layers the other way round. */
  lemma OwnerLayersAre(md5: Md5, info: EncryptionInfo, owner: seq<byte>, user: seq<byte>)
    ensures var key := OwnerRc4Key(md5, info, owner);
      var entry, recovered := OwnerEntry(md5, info, owner, user), Recovered(md5, info, owner);
      && (entry.Ok? <==> info.keyLength >= 8) && (recovered.Ok? <==> info.keyLength >= 8)
      && (entry.Ok? && info.revision == 2 ==>
            entry.value == Cipher(Pad(user), key) && recovered.value == Cipher(info.ownerKey, key))
      && (entry.Ok? && info.revision != 2 ==>
            && (exists steps :: TwentyUp(steps, Pad(user), key, entry.value))
            && exists steps :: TwentyDown(steps, info.ownerKey, key, recovered.value))
  {
    hide Cipher, XorKey, Layered, Peeled, Pad, OwnerRc4Key, TwentyUp;
    var key := OwnerRc4Key(md5, info, owner);
    if key != [] && info.revision != 2 {
      var up := LayersUp(Pad(user), key);
      var down := PeelsDown(info.ownerKey, key, 20);
      assert TwentyDown(down, info.ownerKey, key, Peeled(info.ownerKey, key, 20));
    }
  }

  /** The U entry: in revision 2 the padded user password under the file key, else twenty layers over the digest of the
      padding string and the file id, and sixteen zeros. */
  lemma UserEntryIs(md5: Md5, info: EncryptionInfo, userPassword: seq<byte>, key: seq<byte>)
    ensures var entry := UserEntry(md5, info, userPassword, key);
      && (entry.Ok? <==> key != [])
      && (entry.Ok? && info.revision == 2 ==> entry.value == Cipher(Pad(userPassword), key))
      && (entry.Ok? && info.revision != 2 ==>
            && |entry.value| == 32 && (forall i :: 16 <= i < 32 ==> entry.value[i] == 0)
            && (info.fileId.None? ==> exists steps :: TwentyUp(steps, md5(PADDING), key, entry.value[..16]))
            && (info.fileId.Some? ==>
                  exists steps :: TwentyUp(steps, md5(PADDING + info.fileId.value), key, entry.value[..16])))
  {
    hide Cipher, XorKey, Layered, Pad, TwentyUp;
    if key != [] && info.revision != 2 {
      var steps := LayersUp(md5(UserHashInput(info)), key);
      assert PADDING + [] == PADDING;
      assert UserEntry(md5, info, userPassword, key).value[..16] == Layered(md5(UserHashInput(info)), key, 20);
    }
  }

  /** The U entry of the dictionary agrees with a computed one: in revision 2 as a whole, else in the first 16 bytes. */
  predicate Agrees(info: EncryptionInfo, entry: seq<byte>) {
    if info.revision == 2 then info.userKey == entry
    else |info.userKey| >= 16 && |entry| >= 16 && forall i :: 0 <= i < 16 ==> info.userKey[i] == entry[i]
  }

  lemma SameFront(a: seq<byte>, b: seq<byte>)
    requires |a| >= 16 && |b| >= 16
    ensures a[..16] == b[..16] <==> forall i :: 0 <= i < 16 ==> a[i] == b[i]
  {
    if a[..16] == b[..16] {
      forall i | 0 <= i < 16 ensures a[i] == b[i] { assert a[..16][i] == b[..16][i]; }
    }
  }

  lemma MatchesExactly(info: EncryptionInfo, entry: seq<byte>)
    requires 2 <= info.revision <= 4
    ensures Matches(info, Ok(entry)) <==> Agrees(info, entry)
  {
    if |info.userKey| >= 16 && |entry| >= 16 { SameFront(info.userKey, entry); }
  }

  /** A user password is accepted exactly in revisions 2 to 4, with a key of at least a byte and from revision 3 on of
      at most sixteen, when the U entry agrees with the one computed from the file key of the padded password. */
  lemma UserAccepted(md5: Md5, info: EncryptionInfo, password: seq<byte>)
    ensures UserVerdict(md5, info, password) == Ok(true) <==>
      && 2 <= info.revision <= 4 && info.keyLength >= 8 && (info.revision >= 3 ==> info.keyLength < 136)
      && Agrees(info, UserEntry(md5, info, password, FileKey(md5, info, Pad(password))).value)
  {
    hide FileKey, Pad, Matches, Agrees, Cipher, Layered;
    if 2 <= info.revision <= 4 && KeyLengthUsable(info) && info.keyLength >= 8 {
      MatchesExactly(info, UserEntry(md5, info, password, FileKey(md5, info, Pad(password))).value);
    } else {
      assert Supported(info) && KeyLengthUsable(info) ==> FileKey(md5, info, Pad(password)) == [];
      NothingMatches(info);
    }
  }

  lemma NothingMatches(info: EncryptionInfo)
    ensures !Matches(info, Err(InvalidKey))
  {
  }

  /** An owner password is accepted exactly in revisions 2 to 4, with such a key, when what it recovers from O has at
      least 32 bytes and the U entry agrees with the one computed from the file key of the first 32. */
  lemma OwnerAccepted(md5: Md5, info: EncryptionInfo, password: seq<byte>)
    ensures OwnerVerdict(md5, info, password) == Ok(true) <==>
      && 2 <= info.revision <= 4 && info.keyLength >= 8 && (info.revision >= 3 ==> info.keyLength < 136)
      && Recovered(md5, info, password).Ok? && |Recovered(md5, info, password).value| >= 32
      && var padded := Recovered(md5, info, password).value[..32];
         Agrees(info, UserEntry(md5, info, padded, FileKey(md5, info, padded)).value)
  {
    hide FileKey, Pad, Matches, Agrees, Cipher, Layered, Peeled, OwnerRc4Key;
    var data := Recovered(md5, info, password);
    if Supported(info) && data.Ok? && |data.value| >= 32 && KeyLengthUsable(info) {
      var padded := data.value[..32];
      MatchesExactly(info, UserEntry(md5, info, padded, FileKey(md5, info, padded)).value);
    }
  }

  // ---------------------------------------------------------------- padding

  /** Section 7.6.3.3 of ISO 32000-1: the password followed by the padding string from its start, cut to 32 bytes. */
  function StandardPad(password: seq<byte>): Padded {
    (password + PADDING)[..32]
  }

  /** A short password is completed with the padding bytes of the places it does not reach, so its padding is the
      standard's exactly when it is empty or fills all 32 bytes. */
  lemma PadExactly(password: seq<byte>)
    ensures forall i :: 0 <= i < 32 ==> Pad(password)[i] == if i < |password| then password[i] else PADDING[i]
    ensures Pad(password) == StandardPad(password) <==> password == [] || |password| >= 32
  {
    var n := |password|;
    if 0 < n < 32 {
      assert StandardPad(password)[n] == PADDING[0] == 0x28;
      assert Pad(password)[n] == PADDING[n];
      OnlyFirst(n);
    }
  }

  lemma OnlyFirst(n: nat)
    requires 0 < n < 32
    ensures PADDING[n] != 0x28
  {
  }

  // ---------------------------------------------------------------- theorems

  /** Only the first 32 bytes matter, and padding what is already 32 bytes long changes nothing. */
  lemma PadIdempotent(password: seq<byte>)
    ensures Pad(Pad(password)) == Pad(password)
    ensures |password| >= 32 ==> Pad(password) == password[..32]
  {
  }

  /** The 20 layers in reverse undo the 20 layers. */
  lemma {:induction false} PeelUndoesLayers(data: seq<byte>, key: Key, n: nat)
    requires n <= 256
    ensures Peeled(Layered(data, key, n), key, n) == data
  {
    hide Cipher, XorKey, Layered, Peeled;
    if n == 0 {
      LayeredNone(data, key);
    } else {
      LayeredStep(data, key, n - 1);
      LayeredStep(Layered(data, key, n), key, n - 1);
      CipherTwice(Layered(data, key, n - 1), XorKey(key, n - 1));
      PeelUndoesLayers(data, key, n - 1);
    }
  }

  /** The owner password, or any other with the same padding, recovers the padded user password from O. */
  lemma OwnerRecoversUser(md5: Md5, info: EncryptionInfo, owner: seq<byte>, user: seq<byte>, password: seq<byte>)
    requires OwnerEntry(md5, info, owner, user).Ok? && Pad(password) == Pad(owner)
    ensures var entry := OwnerEntry(md5, info, owner, user).value;
      Recovered(md5, info.(ownerKey := entry), password) == Ok(Pad(user))
  {
    hide Cipher, Layered, Peeled, Pad;
    var key := OwnerRc4Key(md5, info, owner);
    CipherTwice(Pad(user), key);
    PeelUndoesLayers(Pad(user), key, 20);
  }

  /** The encryption dictionary with freshly computed O and U entries. */
  function Built(md5: Md5, info: EncryptionInfo, owner: seq<byte>, user: seq<byte>): Result<EncryptionInfo,
        CryptoError> {
    var o :- OwnerEntry(md5, info, owner, user);
    var withOwner := info.(ownerKey := o);
    var key :- StandardKey(md5, withOwner, Pad(user));
    var u :- UserEntry(md5, withOwner, user, key);
    Ok(withOwner.(userKey := u))
  }

  lemma FileKeyIgnoresUserKey(md5: Md5, info: EncryptionInfo, userKey: seq<byte>, padded: Padded)
    ensures StandardKey(md5, info.(userKey := userKey), padded) == StandardKey(md5, info, padded)
  {
    assert KeyHashInput(info.(userKey := userKey), padded) == KeyHashInput(info, padded);
  }

  /** The entries can be built exactly when the key has at least one byte and, from revision 3 on, at most 16. */
  lemma BuiltExactly(md5: Md5, info: EncryptionInfo, owner: seq<byte>, user: seq<byte>)
    ensures Built(md5, info, owner, user).Ok? <==> info.keyLength >= 8 && (info.revision >= 3 ==> info.keyLength < 136)
  {
    hide OwnerRc4Key, FileKey, Cipher, Layered, Pad;
  }

  /** Password theorem: freshly built entries accept the user password and the owner password,
      and every password that pads to the same 32 bytes. */
  lemma FreshEntriesValidate(md5: Md5, info: EncryptionInfo, owner: seq<byte>, user: seq<byte>, password: seq<byte>)
    requires Supported(info) && Built(md5, info, owner, user).Ok?
    ensures Pad(password) == Pad(user) ==> UserVerdict(md5, Built(md5, info, owner, user).value, password) == Ok(true)
    ensures Pad(password) == Pad(owner) ==> OwnerVerdict(md5, Built(md5, info, owner, user).value, password) == Ok(true)
  {
    hide Cipher, Layered, Peeled, Pad, FileKey, OwnerRc4Key;
    var withOwner := info.(ownerKey := OwnerEntry(md5, info, owner, user).value);
    var built := Built(md5, info, owner, user).value;
    FileKeyIgnoresUserKey(md5, withOwner, built.userKey, Pad(user));
    if Pad(password) == Pad(owner) {
      OwnerRecoversUser(md5, info, owner, user, password);
      RecoveredIgnoresUserKey(md5, withOwner, built.userKey, password);
      PadIdempotent(user);
      assert Pad(user)[..32] == Pad(user);
    }
  }

  lemma RecoveredIgnoresUserKey(md5: Md5, info: EncryptionInfo, userKey: seq<byte>, password: seq<byte>)
    ensures Recovered(md5, info.(userKey := userKey), password) == Recovered(md5, info, password)
  {
  }
}
