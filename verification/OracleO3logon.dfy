/** O3LOGON in src/auths/oracle_userlist.cpp: three older ways to send a password, under single DES, 3DES
    and AES. */
module OracleO3logon {
  import opened Characters
  import opened OracleCrypto
  import opened OracleO5logon

  const VERIFIER_TYPE_9I: nat := 0x0900
  const VERIFIER_TYPE_8I: nat := 0x0800

  const O3LOGON_BLOCK_SIZE: nat := 8
  const O3LOGON_PASSWORD_OVERHEAD: nat := 4

  const CCAP_O5LOGON_NP: bv32 := 0x02
  const CCAP_O7LOGON: bv32 := 0x20

  const IV: Bytes := [0x80, 0x20, 0x40, 0x04, 0x08, 0x02, 0x10, 0x01]

  const SESSKEY_ENTROPY: Bytes := [
    0xa2, 0xfb, 0xe6, 0xad, 0x4c, 0x7d, 0x1e, 0x3d,
    0x6e, 0xb0, 0xb7, 0x6c, 0x97, 0xef, 0xff, 0x84,
    0x44, 0x71, 0x02, 0x84, 0xac, 0xf1, 0x3b, 0x29,
    0x5c, 0x0f, 0x0c, 0xb1, 0x87, 0x75, 0xef]

  const PASSWORD_ENTROPY: Bytes := [
    0xf2, 0xff, 0x97, 0x87, 0x15, 0x37, 0x07, 0x76,
    0x07, 0x27, 0xe2, 0x7f, 0xa3, 0xb1, 0xd6, 0x73,
    0x3f, 0x2f, 0xd1, 0x52, 0xab, 0xac, 0xc0]

  // ------------------------------------------------------------ keys

  ghost function CreateKey(c: Crypto, input: Bytes, entropy: Bytes): (r: Bytes)
    requires Lawful(c)
    ensures |r| == 24
  {
    var first := c.sha1(input + entropy);
    first + c.sha1(input + [0x02] + first[1..] + entropy)[..4]
  }

  method O3logonCreateKey(c: Crypto, input: Bytes, entropy: Bytes) returns (key: array<Byte>)
    requires Lawful(c)
    ensures fresh(key) && key[..] == CreateKey(c, input, entropy)
    ensures
      var first := c.sha1(input + entropy);
      |first| == 20 && key[..] == first + c.sha1(input + [0x02] + first[1..] + entropy)[..4]
  {
    key := new Byte[24];
    var digest := c.sha1(input + entropy);
    Copy(key, 0, digest);
    assert key[..20] == digest && key[1..20] == digest[1..];
    var second := c.sha1(input + [0x02] + key[1..20] + entropy);
    Copy(key, 20, second[..4]);
  }

  ghost function AesKek(c: Crypto, user: Bytes, password: Bytes): (r: Bytes)
    requires Lawful(c)
    ensures |r| == 16
  {
    DesHash(c, user, password) + Zeros(8)
  }

  ghost function TripleDesKek(c: Crypto, user: Bytes, password: Bytes): (r: Bytes)
    requires Lawful(c)
    ensures |r| == 24
  {
    CreateKey(c, DesHash(c, user, password), SESSKEY_ENTROPY)
  }

  // ------------------------------------------------------------ the challenge

  predicate IsO3logon(verifiertype: nat) {
    verifiertype == VERIFIER_TYPE_9I || verifiertype == VERIFIER_TYPE_10G || verifiertype == VERIFIER_TYPE_8I
  }

  function O3SessionKeySize(verifiertype: nat): nat {
    if verifiertype == VERIFIER_TYPE_10G then 32 else if verifiertype == VERIFIER_TYPE_8I then 8 else 16
  }

  ghost function EncryptedSessionKey(c: Crypto, user: Bytes, password: Bytes, verifiertype: nat, sesskey: Bytes): Bytes
    requires Lawful(c)
  {
    if verifiertype == VERIFIER_TYPE_10G then c.aesEncrypt(AesKek(c, user, password), sesskey)
    else if verifiertype == VERIFIER_TYPE_8I then c.desEncrypt(DesHash(c, user, password), Zeros(8), sesskey)
    else c.desEncrypt(TripleDesKek(c, user, password), IV, sesskey)
  }

  /** The random session key is given. */
  method O3logonChallenge(c: Crypto, user: Bytes, password: Bytes, extra: Extra, sesskey: Bytes)
      returns (ok: bool, challenge: string)
    requires Lawful(c) && |sesskey| == O3SessionKeySize(extra.verifiertype)
    ensures ok <==> IsO3logon(extra.verifiertype)
    ensures ok ==>
      challenge == HexEncodeUpper(EncryptedSessionKey(c, user, password, extra.verifiertype, sesskey))
    ensures
      var hash := DesHash(c, user, password);
      && (extra.verifiertype == VERIFIER_TYPE_10G ==>
            challenge == HexEncodeUpper(c.aesEncrypt(hash + Zeros(8), sesskey)))
      && (extra.verifiertype == VERIFIER_TYPE_8I ==>
            challenge == HexEncodeUpper(c.desEncrypt(hash, Zeros(8), sesskey)))
      && (extra.verifiertype == VERIFIER_TYPE_9I ==>
            challenge == HexEncodeUpper(c.desEncrypt(CreateKey(c, hash, SESSKEY_ENTROPY), IV, sesskey)))
  {
    hide Lawful, DesHash, CreateKey, HexEncodeUpper;
    challenge := "";
    if !IsO3logon(extra.verifiertype) {
      return false, "";
    }
    var hash := O3logonPasswordHash(c, user, password);
    var encsesskey := new Byte[|sesskey|];
    if extra.verifiertype == VERIFIER_TYPE_10G {
      ok := AesCbc(c, true, hash + Zeros(8), sesskey, encsesskey);
    } else if extra.verifiertype == VERIFIER_TYPE_8I {
      ok := DesCbc(c, true, hash, Zeros(8), sesskey, encsesskey);
    } else {
      var key := O3logonCreateKey(c, hash, SESSKEY_ENTROPY);
      ok := DesCbc(c, true, key[..], IV, sesskey, encsesskey);
    }
    assert encsesskey[..] == encsesskey[..|sesskey|];
    challenge := HexEncodeUpper(encsesskey[..]);
  }

  /** The session key read back from the challenge, if that has the right size. */
  ghost function ReadBack(c: Crypto, user: Bytes, password: Bytes, verifiertype: nat, hex: string): (r: Option<Bytes>)
    requires Lawful(c) && IsO3logon(verifiertype)
    ensures r.Some? ==> |r.value| == O3SessionKeySize(verifiertype)
  {
    var enc := HexDecode(hex);
    if |enc| != O3SessionKeySize(verifiertype) then None
    else if verifiertype == VERIFIER_TYPE_10G then
      assert AesLaw(c, AesKek(c, user, password), enc);
      Some(c.aesDecrypt(AesKek(c, user, password), enc))
    else if verifiertype == VERIFIER_TYPE_8I then
      assert DesLaw(c, DesHash(c, user, password), Zeros(8), enc);
      Some(c.desDecrypt(DesHash(c, user, password), Zeros(8), enc))
    else
      assert DesLaw(c, TripleDesKek(c, user, password), IV, enc);
      Some(c.desDecrypt(TripleDesKek(c, user, password), IV, enc))
  }

  /** The server, which keeps nothing, gets its session key back from the challenge it made. */
  lemma ChallengeReadsBack(c: Crypto, user: Bytes, password: Bytes, verifiertype: nat, sesskey: Bytes)
    requires Lawful(c) && IsO3logon(verifiertype) && |sesskey| == O3SessionKeySize(verifiertype)
    ensures ReadBack(c, user, password, verifiertype,
                     HexEncodeUpper(EncryptedSessionKey(c, user, password, verifiertype, sesskey)))
         == Some(sesskey)
  {
    HexReadsBack(EncryptedSessionKey(c, user, password, verifiertype, sesskey));
    hide Lawful, DesHash, CreateKey, HexEncodeUpper, HexDecode;
    if verifiertype == VERIFIER_TYPE_10G {
      AesInverse(c, AesKek(c, user, password), sesskey);
    } else if verifiertype == VERIFIER_TYPE_8I {
      DesInverse(c, DesHash(c, user, password), Zeros(8), sesskey);
    } else {
      DesInverse(c, TripleDesKek(c, user, password), IV, sesskey);
    }
  }

  // ------------------------------------------------------------ AES

  /** The session key's first half is the key iff both sides set both bits. */
  function AesKeyHalf(sesskey: Bytes, extra: Extra): (r: Bytes)
    requires |sesskey| == 32
    ensures |r| == 16
  {
    var client := extra.clientlogontypes.GetOr(CCAP_O7LOGON | CCAP_O5LOGON_NP);
    if extra.serverlogontypes & 0x22 == 0x22 && client & 0x22 == 0x22 then sesskey[..16] else sesskey[16..]
  }

  predicate BothBits(logontypes: bv32) {
    logontypes & 0x20 != 0 && logontypes & 0x02 != 0
  }

  /** Both sides set both bits, where a client that doesn't say is taken to. */
  predicate BothSidesSetBoth(extra: Extra) {
    BothBits(extra.serverlogontypes) && (extra.clientlogontypes.Some? ==> BothBits(extra.clientlogontypes.value))
  }

  lemma HalfIs(sesskey: Bytes, extra: Extra)
    requires |sesskey| == 32
    ensures AesKeyHalf(sesskey, extra) == if BothSidesSetBoth(extra) then sesskey[..16] else sesskey[16..]
  {
    BothBitsIff(extra.serverlogontypes);
    BothBitsIff(extra.clientlogontypes.GetOr(CCAP_O7LOGON | CCAP_O5LOGON_NP));
  }

  lemma BothBitsIff(logontypes: bv32)
    ensures BothBits(logontypes) <==> logontypes & 0x22 == 0x22
  {
  }

  /** What a plaintext is taken to hold. Only the last byte of the padding matters. */
  function AesText(b: Bytes): Option<Bytes> {
    if |b| > 16 && var pad := b[|b| - 1]; 1 <= pad <= 16 && 16 + pad <= |b| then Some(b[16..|b| - b[|b| - 1]]) else None
  }

  /** What AUTH_PASSWORD is taken to hold, whether or not it's the password. */
  ghost function AesSent(c: Crypto, combokey: Bytes, authpassword: string): Option<Bytes> {
    var enc := HexDecode(authpassword);
    if |enc| > 16 && |enc| % 16 == 0 then AesText(c.aesDecrypt(combokey, enc)) else None
  }

  ghost predicate AesAccepts(c: Crypto, sesskey: Bytes, extra: Extra, authpassword: string, password: Bytes)
    requires |sesskey| == 32
  {
    AesSent(c, AesKeyHalf(sesskey, extra), authpassword) == Some(password)
  }

  method O3logonAesVerify(c: Crypto, authpassword: string, user: Bytes, password: Bytes, extra: Extra)
      returns (ok: bool, supplied: Bytes)
    requires Lawful(c)
    ensures var sesskey := ReadBack(c, user, password, VERIFIER_TYPE_10G, extra.serverauthsesskey);
      && (ok <==> sesskey.Some? && AesAccepts(c, sesskey.value, extra, authpassword, password))
      && supplied == if sesskey.Some? then AesSent(c, AesKeyHalf(sesskey.value, extra), authpassword).GetOr([]) else []
    ensures var sesskey := ReadBack(c, user, password, VERIFIER_TYPE_10G, extra.serverauthsesskey);
      sesskey.Some? ==>
        var key := if BothSidesSetBoth(extra) then sesskey.value[..16] else sesskey.value[16..];
        (ok <==> AesSent(c, key, authpassword) == Some(password)) && supplied == AesSent(c, key, authpassword).GetOr([])
  {
    hide Lawful, DesHash, HexDecode, AesSent;
    supplied := [];
    var hash := O3logonPasswordHash(c, user, password);
    var encsesskey := new Byte[32];
    var sesskey := new Byte[32];
    ok := HexDecodeExactly(extra.serverauthsesskey, 32, encsesskey);
    if ok {
      assert encsesskey[..] == encsesskey[..32];
      ok := AesCbc(c, false, hash + Zeros(8), encsesskey[..], sesskey);
      assert sesskey[..] == sesskey[..32];
    }
    if !ok {
      return;
    }
    var logontypes := extra.serverlogontypes;
    var clientlogontypes := extra.clientlogontypes.GetOr(CCAP_O7LOGON | CCAP_O5LOGON_NP);
    var firsthalf := logontypes & CCAP_O7LOGON != 0 && logontypes & CCAP_O5LOGON_NP != 0
      && clientlogontypes & CCAP_O7LOGON != 0 && clientlogontypes & CCAP_O5LOGON_NP != 0;
    var start := if firsthalf then 0 else 16;
    var combokey := sesskey[start..start + 16];
    assert combokey == AesKeyHalf(sesskey[..], extra);
    HalfIs(sesskey[..], extra);
    ok, supplied := AesPassword(c, combokey, authpassword, password);
  }

  /** The part of o3logonAesVerify() that has the key. */
  method AesPassword(c: Crypto, combokey: Bytes, authpassword: string, password: Bytes)
      returns (ok: bool, supplied: Bytes)
    requires Lawful(c) && |combokey| == 16
    ensures ok <==> AesSent(c, combokey, authpassword) == Some(password)
    ensures supplied == AesSent(c, combokey, authpassword).GetOr([])
  {
    hide HexDecode;
    supplied := [];
    var encpassword := HexDecode(authpassword);
    var size := |encpassword|;
    var plaintext := new Byte[size + 1];
    ok := size > 16 && size % 16 == 0;
    if ok {
      ok := AesCbc(c, false, combokey, encpassword, plaintext);
    }
    if ok {
      ghost var b := plaintext[..size];
      AesInverse(c, combokey, encpassword);
      hide Lawful;
      var pad := plaintext[size - 1];
      ok := pad != 0 && pad <= 16 && 16 + pad <= size;
      if ok {
        var suppliedsize := size - 16 - pad;
        supplied := plaintext[16..16 + suppliedsize];
        PartOfFront(plaintext, size, 16, size - pad);
        ok := suppliedsize == |password| && supplied == password;
      }
    }
  }

  // ------------------------------------------------------------ DES

  /** AUTH_PASSWORD is whole blocks in hex, at least one, and a digit less than the block size. */
  predicate IsDesPassword(s: string) {
    && |s| >= 17 && (|s| - 1) % 16 == 0
    && (forall i :: 0 <= i < |s| - 1 ==> IsHexDigit(s[i]))
    && '0' <= s[|s| - 1] < '8'
  }

  function PadDigit(s: string): (r: nat)
    requires IsDesPassword(s)
    ensures r < 8
  {
    s[|s| - 1] as int - '0' as int
  }

  /** What AUTH_PASSWORD is taken to hold: all but so many zeros at the end. */
  ghost function DesSent(c: Crypto, sesskey: Bytes, authpassword: string): Option<Bytes> {
    if !IsDesPassword(authpassword) then None
    else ZerosOff(c.desDecrypt(sesskey, Zeros(8), HexDecode(authpassword[..|authpassword| - 1])), PadDigit(authpassword))
  }

  function ZerosOff(b: Bytes, count: nat): Option<Bytes> {
    if count <= |b| && b[|b| - count..] == Zeros(count) then Some(b[..|b| - count]) else None
  }

  ghost predicate DesAccepts(c: Crypto, sesskey: Bytes, authpassword: string, password: Bytes) {
    DesSent(c, sesskey, authpassword) == Some(password)
  }

  /** At least one block of eight bytes in hex, and a digit from 0 to 7. */
  predicate IsBlocksAndDigit(s: string) {
    && s != "" && s[|s| - 1] in "01234567" && |s| > 1 && (|s| - 1) % 16 == 0
    && forall i :: 0 <= i < |s| - 1 ==> s[i] in "0123456789abcdefABCDEF"
  }

  lemma FormIs(s: string)
    ensures IsBlocksAndDigit(s) <==> IsDesPassword(s)
  {
    forall i | 0 <= i < |s| ensures IsHexDigit(s[i]) <==> s[i] in "0123456789abcdefABCDEF" {
      HexDigitIs(s[i]);
    }
    if s != "" {
      PadDigitIs(s[|s| - 1]);
    }
    hide IsHexDigit;
  }

  lemma HexDigitIs(c: char)
    ensures IsHexDigit(c) <==> c in "0123456789abcdefABCDEF"
  {
  }

  lemma PadDigitIs(c: char)
    ensures '0' <= c < '8' <==> c in "01234567"
  {
  }

  /** Acceptance means that the plaintext is exactly the password and the stated number of zeros. */
  lemma DesAcceptsIff(c: Crypto, sesskey: Bytes, authpassword: string, password: Bytes)
    ensures DesAccepts(c, sesskey, authpassword, password)
       <==> IsBlocksAndDigit(authpassword)
            && c.desDecrypt(sesskey, Zeros(8), HexDecode(authpassword[..|authpassword| - 1]))
               == password + Zeros(authpassword[|authpassword| - 1] as int - '0' as int)
  {
    FormIs(authpassword);
    hide IsBlocksAndDigit;
    if IsDesPassword(authpassword) {
      var pad := PadDigit(authpassword);
      var b := c.desDecrypt(sesskey, Zeros(8), HexDecode(authpassword[..|authpassword| - 1]));
      hide HexDecode;
      if b == password + Zeros(pad) {
        assert b[|b| - pad..] == Zeros(pad) && b[..|b| - pad] == password;
      } else if pad <= |b| {
        assert b == b[..|b| - pad] + b[|b| - pad..];
      }
    }
  }

  /** Checks the form of AUTH_PASSWORD. */
  method CheckDesPassword(authpassword: string) returns (ok: bool, pad: nat)
    ensures ok <==> IsDesPassword(authpassword)
    ensures ok ==> pad == PadDigit(authpassword)
  {
    pad := 0;
    var authpasswordlen := |authpassword|;
    if authpasswordlen < O3LOGON_BLOCK_SIZE * 2 + 1 || (authpasswordlen - 1) % (O3LOGON_BLOCK_SIZE * 2) != 0 {
      return false, 0;
    }
    var hexlen := authpasswordlen - 1;
    for i := 0 to hexlen
      invariant forall j :: 0 <= j < i ==> IsHexDigit(authpassword[j])
    {
      if !IsHexDigit(authpassword[i]) {
        return false, 0;
      }
    }
    var paddigit := authpassword[hexlen];
    if paddigit < '0' || paddigit as int >= '0' as int + O3LOGON_BLOCK_SIZE {
      return false, 0;
    }
    return true, paddigit as int - '0' as int;
  }

  method O3logonDesVerify(c: Crypto, authpassword: string, user: Bytes, password: Bytes, extra: Extra)
      returns (ok: bool, supplied: Bytes)
    requires Lawful(c)
    ensures var sesskey := ReadBack(c, user, password, VERIFIER_TYPE_8I, extra.serverauthsesskey);
      && (ok <==> sesskey.Some? && DesAccepts(c, sesskey.value, authpassword, password))
      && supplied == if sesskey.Some? then DesSent(c, sesskey.value, authpassword).GetOr([]) else []
  {
    hide Lawful, DesHash, HexDecode, ZerosOff;
    supplied := [];
    var pad;
    ok, pad := CheckDesPassword(authpassword);
    if !ok {
      return;
    }
    var hexlen := |authpassword| - 1;
    var hash := O3logonPasswordHash(c, user, password);
    var encsesskey := new Byte[8];
    var sesskey := new Byte[8];
    ok := HexDecodeExactly(extra.serverauthsesskey, 8, encsesskey);
    if ok {
      assert encsesskey[..] == encsesskey[..8];
      ok := DesCbc(c, false, hash, Zeros(8), encsesskey[..], sesskey);
      assert sesskey[..] == sesskey[..8];
    }
    if !ok {
      return;
    }
    ok, supplied := DesPassword(c, sesskey[..], authpassword[..hexlen], pad, password);
  }

  /** The part of o3logonDesVerify() that has the key. */
  method DesPassword(c: Crypto, sesskey: Bytes, hex: string, pad: nat, password: Bytes)
      returns (ok: bool, supplied: Bytes)
    requires Lawful(c) && |sesskey| == 8 && |hex| >= 16 && |hex| % 16 == 0 && pad < 8
    ensures var sent := ZerosOff(c.desDecrypt(sesskey, Zeros(8), HexDecode(hex)), pad);
      (ok <==> sent == Some(password)) && supplied == sent.GetOr([])
  {
    hide HexDecode;
    supplied := [];
    var encpassword := HexDecode(hex);
    var size := |encpassword|;
    var plaintext := new Byte[size + 1];
    ok := DesCbc(c, false, sesskey, Zeros(8), encpassword, plaintext);
    ghost var b := c.desDecrypt(sesskey, Zeros(8), encpassword);
    DesInverse(c, sesskey, Zeros(8), encpassword);
    hide Lawful;
    var suppliedsize := size - pad;
    var i := suppliedsize;
    while ok && i < size
      invariant suppliedsize <= i <= size
      invariant ok ==> forall j :: suppliedsize <= j < i ==> b[j] == 0
      invariant !ok ==> exists j :: suppliedsize <= j < size && b[j] != 0
    {
      ok := plaintext[i] == 0;
      assert plaintext[..size][i] == b[i];
      i := i + 1;
    }
    if ok {
      assert b[suppliedsize..] == Zeros(pad);
      supplied := plaintext[..suppliedsize];
      assert supplied == plaintext[..size][..suppliedsize];
      ok := suppliedsize == |password| && supplied == password;
    }
  }

  // ------------------------------------------------------------ 3DES

  /** The last four bytes belong in front. */
  function Unrotated(b: Bytes): (r: Bytes)
    requires |b| >= 4
    ensures |r| == |b|
  {
    b[|b| - 4..] + b[4..]
  }

  method Unrotate(obf: array<Byte>, size: nat)
    requires O3LOGON_PASSWORD_OVERHEAD <= size <= obf.Length
    modifies obf
    ensures obf[..size] == Unrotated(old(obf[..size]))
  {
    PartOfFront(obf, size, size - 4, size);
    PartOfFront(obf, size, 4, size);
    ghost var rest := obf[4..];
    assert rest[..size - 4] == obf[4..size];
    Copy(obf, 0, obf[size - O3LOGON_PASSWORD_OVERHEAD..size]);
    assert obf[4..] == rest;
    PartOfFront(obf, size, 4, size);
    assert obf[..size] == obf[..4] + obf[4..size];
  }

  /** As much of AUTH_PASSWORD as there would be of a password of some length, if there's room for it. */
  ghost function TripleDesSent(c: Crypto, sesskey: Bytes, authpassword: string, length: nat): Option<Bytes>
    requires Lawful(c)
  {
    var enc := HexDecode(authpassword);
    if |enc| >= 8 && |enc| % 8 == 0 && length != 0 && length + 4 <= |enc| then
      var key := CreateKey(c, sesskey, PASSWORD_ENTROPY);
      assert DesLaw(c, key, IV, enc);
      Some(Unrotated(c.desDecrypt(key, IV, enc))[..length])
    else None
  }

  ghost predicate TripleDesAccepts(c: Crypto, sesskey: Bytes, authpassword: string, password: Bytes)
    requires Lawful(c)
  {
    TripleDesSent(c, sesskey, authpassword, |password|) == Some(password)
  }

  method O3logonTripleDesVerify(c: Crypto, authpassword: string, user: Bytes, password: Bytes, extra: Extra)
      returns (ok: bool, supplied: Bytes)
    requires Lawful(c)
    ensures var sesskey := ReadBack(c, user, password, VERIFIER_TYPE_9I, extra.serverauthsesskey);
      && (ok <==> sesskey.Some? && TripleDesAccepts(c, sesskey.value, authpassword, password))
      && supplied == if sesskey.Some? then TripleDesSent(c, sesskey.value, authpassword, |password|).GetOr([]) else []
  {
    hide Lawful, DesHash, HexDecode, CreateKey, TripleDesSent;
    supplied := [];
    var hash := O3logonPasswordHash(c, user, password);
    var key := O3logonCreateKey(c, hash, SESSKEY_ENTROPY);
    var encsesskey := new Byte[16];
    var sesskey := new Byte[16];
    ok := HexDecodeExactly(extra.serverauthsesskey, 16, encsesskey);
    if ok {
      assert encsesskey[..] == encsesskey[..16];
      ok := DesCbc(c, false, key[..], IV, encsesskey[..], sesskey);
      assert sesskey[..] == sesskey[..16];
    }
    if !ok {
      return;
    }
    ok, supplied := TripleDesPassword(c, sesskey[..], authpassword, password);
  }

  /** The part of o3logonVerify() that has the session key. */
  method TripleDesPassword(c: Crypto, sesskey: Bytes, authpassword: string, password: Bytes)
      returns (ok: bool, supplied: Bytes)
    requires Lawful(c)
    ensures ok <==> TripleDesAccepts(c, sesskey, authpassword, password)
    ensures supplied == TripleDesSent(c, sesskey, authpassword, |password|).GetOr([])
  {
    hide HexDecode, CreateKey;
    supplied := [];
    var key := O3logonCreateKey(c, sesskey, PASSWORD_ENTROPY);
    var encpassword := HexDecode(authpassword);
    var size := |encpassword|;
    var obf := new Byte[size + 1];
    ok := size >= O3LOGON_BLOCK_SIZE && size % O3LOGON_BLOCK_SIZE == 0
      && |password| != 0 && |password| + O3LOGON_PASSWORD_OVERHEAD <= size;
    if ok {
      ok := DesCbc(c, false, key[..], IV, encpassword, obf);
      DesInverse(c, key[..], IV, encpassword);
    }
    hide Lawful;
    if ok {
      Unrotate(obf, size);
      hide Unrotated;
      supplied := obf[..|password|];
      PartOfFront(obf, size, 0, |password|);
      ok := supplied == password;
    }
  }

  // ------------------------------------------------------------ the whole

  /** What AUTH_PASSWORD is taken to hold, for a stored password of some length. */
  ghost function Sent(c: Crypto, verifiertype: nat, sesskey: Bytes, extra: Extra, authpassword: string,
                      length: nat): Option<Bytes>
    requires Lawful(c) && IsO3logon(verifiertype) && |sesskey| == O3SessionKeySize(verifiertype)
  {
    if verifiertype == VERIFIER_TYPE_10G then AesSent(c, AesKeyHalf(sesskey, extra), authpassword)
    else if verifiertype == VERIFIER_TYPE_8I then DesSent(c, sesskey, authpassword)
    else TripleDesSent(c, sesskey, authpassword, length)
  }

  method O3logonVerify(c: Crypto, authpassword: string, user: Bytes, password: Bytes, extra: Extra)
      returns (ok: bool, supplied: Bytes)
    requires Lawful(c)
    ensures !IsO3logon(extra.verifiertype) ==> !ok && supplied == []
    ensures IsO3logon(extra.verifiertype) ==>
      var sesskey := ReadBack(c, user, password, extra.verifiertype, extra.serverauthsesskey);
      if sesskey.None? then !ok && supplied == []
      else
        var sent := Sent(c, extra.verifiertype, sesskey.value, extra, authpassword, |password|);
        (ok <==> sent == Some(password)) && supplied == sent.GetOr([])
  {
    hide Lawful, ReadBack, AesSent, DesSent, TripleDesSent, AesKeyHalf;
    if !IsO3logon(extra.verifiertype) {
      return false, [];
    }
    if extra.verifiertype == VERIFIER_TYPE_10G {
      ok, supplied := O3logonAesVerify(c, authpassword, user, password, extra);
    } else if extra.verifiertype == VERIFIER_TYPE_8I {
      ok, supplied := O3logonDesVerify(c, authpassword, user, password, extra);
    } else {
      ok, supplied := O3logonTripleDesVerify(c, authpassword, user, password, extra);
    }
  }

  // ------------------------------------------------------------ clients

  /** The least number of zeros that fills up whole blocks. */
  function ZeroPad(n: nat): (r: nat)
    ensures r < 8 && (n + r) % 8 == 0
  {
    (8 - n % 8) % 8
  }

  /** What an 8i client sends: the password and zeros, and how many zeros. */
  ghost function DesClient(c: Crypto, sesskey: Bytes, password: Bytes): string {
    var pad := ZeroPad(|password|);
    HexEncodeUpper(c.desEncrypt(sesskey, Zeros(8), password + Zeros(pad))) + [pad as char + '0']
  }

  /** What a 9i client sends under a key: salt, and the password and filler with their first four bytes at the
      end. */
  ghost function TripleDesClient(c: Crypto, key: Bytes, salt: Bytes, password: Bytes, filler: Bytes): string
    requires |password + filler| >= 4
  {
    var text := password + filler;
    HexEncodeUpper(c.desEncrypt(key, IV, salt + text[4..] + text[..4]))
  }

  /** The key that a 9i client makes of the session key. */
  ghost predicate IsTripleDesKey(c: Crypto, sesskey: Bytes, key: Bytes) {
    var first := c.sha1(sesskey + PASSWORD_ENTROPY);
    && |first| == 20
    && var second := c.sha1(sesskey + [0x02] + first[1..] + PASSWORD_ENTROPY);
       |second| == 20 && key == first + second[..4]
  }

  /** Whole blocks in hex and a digit have the right form iff there is a block. */
  lemma FormIff(hex: string, pad: nat)
    requires |hex| % 16 == 0 && pad < 8 && forall i :: 0 <= i < |hex| ==> IsHexDigit(hex[i])
    ensures
      var sent := hex + [pad as char + '0'];
      && sent[..|sent| - 1] == hex
      && (IsDesPassword(sent) <==> hex != "")
      && (hex != "" ==> PadDigit(sent) == pad)
  {
    hide IsHexDigit;
  }

  /** What an 8i client sends has the right form iff the password isn't empty. */
  lemma DesClientForm(c: Crypto, sesskey: Bytes, password: Bytes)
    requires Lawful(c) && |sesskey| == 8
    ensures
      var pad := ZeroPad(|password|);
      var enc := c.desEncrypt(sesskey, Zeros(8), password + Zeros(pad));
      var sent := DesClient(c, sesskey, password);
      && |sent| > 0 && sent[..|sent| - 1] == HexEncodeUpper(enc)
      && (IsDesPassword(sent) <==> password != [])
      && (password != [] ==> PadDigit(sent) == pad)
  {
    var pad := ZeroPad(|password|);
    var b := password + Zeros(pad);
    DesInverse(c, sesskey, Zeros(8), b);
    hide Lawful, HexEncodeUpper, IsHexDigit, IsDesPassword, PadDigit, ZeroPad, Zeros;
    HexOfBlocks(|b|);
    FormIff(HexEncodeUpper(c.desEncrypt(sesskey, Zeros(8), b)), pad);
  }

  lemma HexOfBlocks(size: nat)
    requires size % 8 == 0
    ensures (2 * size) % 16 == 0
  {
  }

  lemma SamePadded(a: Bytes, b: Bytes, pad: Bytes)
    ensures a + pad == b + pad <==> a == b
  {
    if a + pad == b + pad {
      assert |a| == |b|;
      assert a == (a + pad)[..|a|] && b == (b + pad)[..|b|];
    }
  }

  /** An 8i password is accepted iff it isn't empty and is the client's. */
  lemma DesClientIff(c: Crypto, sesskey: Bytes, password: Bytes, stored: Bytes)
    requires Lawful(c) && |sesskey| == 8
    ensures DesAccepts(c, sesskey, DesClient(c, sesskey, password), stored) <==> password != [] && stored == password
  {
    var zeros := Zeros(ZeroPad(|password|));
    DesClientForm(c, sesskey, password);
    DesInverse(c, sesskey, Zeros(8), password + zeros);
    HexReadsBack(c.desEncrypt(sesskey, Zeros(8), password + zeros));
    DesAcceptsIff(c, sesskey, DesClient(c, sesskey, password), stored);
    hide Lawful, HexDecode, HexEncodeUpper, DesAccepts, IsDesPassword, DesClient, PadDigit;
    SamePadded(stored, password, zeros);
  }

  /** A 9i password is accepted iff it isn't empty and what the client sent starts with it; so the
      client's own is accepted iff it isn't empty. */
  lemma TripleDesClientIff(c: Crypto, sesskey: Bytes, key: Bytes, salt: Bytes, password: Bytes, filler: Bytes,
                           stored: Bytes)
    requires Lawful(c) && IsTripleDesKey(c, sesskey, key) && |salt| == 4 && |password + filler| >= 4 && (4 + |password + filler|) % 8 == 0
    ensures TripleDesAccepts(c, sesskey, TripleDesClient(c, key, salt, password, filler), stored)
       <==> stored != [] && stored <= password + filler
  {
    var text := password + filler;
    var b := salt + text[4..] + text[..4];
    assert key == CreateKey(c, sesskey, PASSWORD_ENTROPY);
    DesInverse(c, key, IV, b);
    HexReadsBack(c.desEncrypt(key, IV, b));
    hide Lawful, HexDecode, HexEncodeUpper, CreateKey;
    assert Unrotated(b) == text + text[..4] by {
      assert b[|b| - 4..] == text[..4];
      assert b[4..] == text[4..] + text[..4];
      assert text[..4] + (text[4..] + text[..4]) == text + text[..4];
    }
    assert stored <= text + text[..4] <==> |stored| <= |b| && (text + text[..4])[..|stored|] == stored;
  }

  /** A 10g password is accepted iff it is the client's, who takes the first half of the session key if both
      sides set both bits, and else the second. */
  lemma AesClientIff(c: Crypto, sesskey: Bytes, extra: Extra, salt: Bytes, password: Bytes, stored: Bytes)
    requires Lawful(c) && |sesskey| == 32 && |salt| == 16
    ensures
      var key := if BothSidesSetBoth(extra) then sesskey[..16] else sesskey[16..];
      AesAccepts(c, sesskey, extra, ClientPassword(c, key, salt, password), stored) <==> stored == password
  {
    HalfIs(sesskey, extra);
    var combokey := AesKeyHalf(sesskey, extra);
    var b := salt + password + Pad(PadSize(password));
    AesInverse(c, combokey, b);
    HexReadsBack(c.aesEncrypt(combokey, b));
    hide Lawful, HexDecode, HexEncodeUpper, AesKeyHalf, BothSidesSetBoth;
    assert b[|b| - 1] == PadSize(password);
    assert b[16..|b| - PadSize(password)] == password;
    assert AesText(b) == Some(password);
  }

  lemma FramedText(salt: Bytes, password: Bytes, rest: Bytes)
    requires |salt| == 16 && |rest| < 16
    ensures AesText(salt + password + rest + [(|rest| + 1)]) == Some(password)
  {
    var b := salt + password + rest + [(|rest| + 1)];
    assert b[|b| - 1] == |rest| + 1;
    assert b[16..16 + |password|] == password;
  }

  /** The plaintexts that the 10g check takes: 16 bytes of salt, the password, and up to 15 bytes of
      anything before their number. */
  lemma AesTextIff(b: Bytes, password: Bytes)
    ensures AesText(b) == Some(password)
       <==> exists salt: Bytes, rest: Bytes ::
              |salt| == 16 && |rest| < 16 && b == salt + password + rest + [(|rest| + 1)]
  {
    if AesText(b) == Some(password) {
      var pad := b[|b| - 1];
      var salt, rest := b[..16], b[|b| - pad..|b| - 1];
      assert b == salt + password + rest + [|rest| + 1];
    }
    hide AesText;
    forall salt: Bytes, rest: Bytes | |salt| == 16 && |rest| < 16 && b == salt + password + rest + [(|rest| + 1)]
      ensures AesText(b) == Some(password)
    {
      FramedText(salt, password, rest);
    }
  }

  /** What a 10g client sent is taken for a password iff it is whole blocks, more than the salt, and under the
      key, salt, the password, and up to 15 bytes of anything before their number. */
  lemma AesSentIff(c: Crypto, key: Bytes, authpassword: string, password: Bytes)
    requires Lawful(c) && IsAesKey(key)
    ensures AesSent(c, key, authpassword) == Some(password)
       <==> var enc := HexDecode(authpassword);
            && |enc| > 16 && |enc| % 16 == 0
            && exists salt: Bytes, rest: Bytes ::
                 |salt| == 16 && |rest| < 16 && c.aesDecrypt(key, enc) == salt + password + rest + [(|rest| + 1)]
  {
    AesTextIff(c.aesDecrypt(key, HexDecode(authpassword)), password);
    hide AesText, HexDecode;
  }

  /** What a 9i client sent is taken for a password iff that isn't empty, what was sent is whole blocks with
      room for it, and it comes first once the last four bytes have taken the place of the first. */
  lemma TripleDesAcceptsIff(c: Crypto, sesskey: Bytes, key: Bytes, authpassword: string, password: Bytes)
    requires Lawful(c) && IsTripleDesKey(c, sesskey, key)
    ensures TripleDesAccepts(c, sesskey, authpassword, password)
       <==> var enc := HexDecode(authpassword);
            && password != [] && |enc| % 8 == 0 && |password| + 4 <= |enc|
            && var b := c.desDecrypt(key, IV, enc);
               |b| == |enc| && password <= b[|b| - 4..] + b[4..]
  {
    assert key == CreateKey(c, sesskey, PASSWORD_ENTROPY);
    var enc := HexDecode(authpassword);
    if |enc| % 8 == 0 {
      DesInverse(c, key, IV, enc);
      hide Lawful, HexDecode, CreateKey;
      var b := c.desDecrypt(key, IV, enc);
      if |b| >= 4 && |password| <= |b| {
        assert password <= Unrotated(b) <==> Unrotated(b)[..|password|] == password;
      }
    }
  }

  /** Challenge, then verify, under any verifier type: an honest client is accepted iff its password isn't
      empty, or the type is 10g. */
  lemma HonestClientIff(c: Crypto, user: Bytes, password: Bytes, extra: Extra, sesskey: Bytes, key: Bytes,
                        salt: Bytes, filler: Bytes, authpassword: string)
    requires Lawful(c) && IsO3logon(extra.verifiertype) && |sesskey| == O3SessionKeySize(extra.verifiertype)
    requires extra.serverauthsesskey
          == HexEncodeUpper(EncryptedSessionKey(c, user, password, extra.verifiertype, sesskey))
    requires extra.verifiertype == VERIFIER_TYPE_10G ==>
      && key == (if BothSidesSetBoth(extra) then sesskey[..16] else sesskey[16..])
      && |salt| == 16 && authpassword == ClientPassword(c, key, salt, password)
    requires extra.verifiertype == VERIFIER_TYPE_8I ==> authpassword == DesClient(c, sesskey, password)
    requires extra.verifiertype == VERIFIER_TYPE_9I ==>
      && IsTripleDesKey(c, sesskey, key)
      && |salt| == 4 && |password + filler| >= 4 && (4 + |password + filler|) % 8 == 0
      && authpassword == TripleDesClient(c, key, salt, password, filler)
    ensures ReadBack(c, user, password, extra.verifiertype, extra.serverauthsesskey) == Some(sesskey)
    ensures Sent(c, extra.verifiertype, sesskey, extra, authpassword, |password|) == Some(password)
       <==> password != [] || extra.verifiertype == VERIFIER_TYPE_10G
  {
    ChallengeReadsBack(c, user, password, extra.verifiertype, sesskey);
    hide Lawful, AesSent, DesSent, TripleDesSent, ReadBack, EncryptedSessionKey, AesKeyHalf;
    if extra.verifiertype == VERIFIER_TYPE_10G {
      AesClientIff(c, sesskey, extra, salt, password, password);
    } else if extra.verifiertype == VERIFIER_TYPE_8I {
      DesClientIff(c, sesskey, password, password);
    } else {
      TripleDesClientIff(c, sesskey, key, salt, password, filler, password);
    }
  }
}
