/** O5LOGON in src/auths/oracle_userlist.cpp: a challenge that the server can read back later, the key
    that both sides make of their session keys, and the check of the password that came under it. */
module OracleO5logon {
  import opened Characters
  import opened OracleCrypto

  const VERIFIER_TYPE_11G_1: nat := 0xb152
  const VERIFIER_TYPE_11G_2: nat := 0x1b25
  const VERIFIER_TYPE_12C: nat := 0x4815
  const VERIFIER_TYPE_10G: nat := 0x0939

  const SESSION_KEY_SIZE_11G: nat := 48
  const SESSION_KEY_SIZE_12C: nat := 32
  const SESSION_KEY_SIZE_10G: nat := 32
  const SESSION_KEY_PAD_SIZE_11G: nat := 8

  /** The inputs that ride in the credentials' "extra" field. */
  datatype Extra = Extra(verifiertype: nat, authvfrdata: string, authpbkdf2vgencount: nat,
                         serverauthsesskey: string, clientauthsesskey: string,
                         authpbkdf2csksalt: string, authpbkdf2sdercount: nat,
                         serverlogontypes: bv32, clientlogontypes: Option<bv32>)

  function Ascii(s: string): (r: Bytes)
    ensures |r| == |s|
  {
    seq(|s|, i requires 0 <= i < |s| => s[i] as int % 256)
  }

  function SpeedyKey(): Bytes {
    Ascii("AUTH_PBKDF2_SPEEDY_KEY")
  }

  predicate Supported(c: Crypto, verifiertype: nat) {
    if verifiertype == VERIFIER_TYPE_10G then c.desSupported
    else verifiertype == VERIFIER_TYPE_11G_1 || verifiertype == VERIFIER_TYPE_11G_2 || verifiertype == VERIFIER_TYPE_12C
  }

  function SessionKeySize(verifiertype: nat): (r: nat)
    ensures r % 16 == 0 && 32 <= r <= 48
  {
    if verifiertype == VERIFIER_TYPE_10G then SESSION_KEY_SIZE_10G
    else if verifiertype == VERIFIER_TYPE_12C then SESSION_KEY_SIZE_12C
    else SESSION_KEY_SIZE_11G
  }

  /** How much of a session key is random. */
  function MaterialSize(verifiertype: nat): nat {
    SessionKeySize(verifiertype)
    - if SessionKeySize(verifiertype) == SESSION_KEY_SIZE_11G then SESSION_KEY_PAD_SIZE_11G else 0
  }

  /** The key that the session keys travel under. */
  ghost function KeyEncryptionKey(c: Crypto, user: Bytes, password: Bytes, extra: Extra): (r: Option<Bytes>)
    requires Lawful(c)
    ensures r.Some? ==> IsAesKey(r.value)
  {
    var vfrdata := HexDecode(extra.authvfrdata);
    if !Supported(c, extra.verifiertype) then None
    else if extra.verifiertype == VERIFIER_TYPE_10G then Some(DesHash(c, user, password) + Zeros(8))
    else if vfrdata == [] then None
    else if extra.verifiertype == VERIFIER_TYPE_12C then
      if extra.authpbkdf2vgencount == 0 then None
      else Some(c.sha512(c.pbkdf2(password, vfrdata + SpeedyKey(), 64, extra.authpbkdf2vgencount) + vfrdata)[..32])
    else Some(c.sha1(password + vfrdata) + Zeros(4))
  }

  /** passwordHash(), with a hash for each verifier type. */
  method PasswordHash(c: Crypto, user: Bytes, password: Bytes, verifiertype: nat, vfrdata: Bytes, vgencount: nat)
      returns (ok: bool, passwordhash: Bytes)
    requires Lawful(c)
    ensures verifiertype == VERIFIER_TYPE_10G ==> ok && passwordhash == DesHash(c, user, password) + Zeros(8)
    ensures verifiertype == VERIFIER_TYPE_12C ==> (ok <==> vgencount != 0)
    ensures verifiertype == VERIFIER_TYPE_12C && ok ==>
      passwordhash == c.sha512(c.pbkdf2(password, vfrdata + SpeedyKey(), 64, vgencount) + vfrdata)[..32]
    ensures verifiertype != VERIFIER_TYPE_10G && verifiertype != VERIFIER_TYPE_12C ==>
      ok && passwordhash == c.sha1(password + vfrdata) + Zeros(4)
    ensures ok ==> IsAesKey(passwordhash)
  {
    hide SpeedyKey, DesHash;
    if verifiertype == VERIFIER_TYPE_10G {
      var hash := O3logonPasswordHash(c, user, password);
      return true, hash + Zeros(8);
    }
    if verifiertype == VERIFIER_TYPE_12C {
      if vgencount == 0 {
        return false, [];
      }
      var salt := vfrdata + SpeedyKey();
      var passwordkey := c.pbkdf2(password, salt, 64, vgencount);
      var digest := c.sha512(passwordkey + vfrdata);
      return true, digest[..32];
    }
    return true, c.sha1(password + vfrdata) + Zeros(4);
  }

  method O5logonParameters(c: Crypto, user: Bytes, password: Bytes, extra: Extra)
      returns (ok: bool, passwordhash: Bytes, sesskeysize: nat)
    requires Lawful(c)
    ensures ok <==> KeyEncryptionKey(c, user, password, extra).Some?
    ensures ok ==> passwordhash == KeyEncryptionKey(c, user, password, extra).value
    ensures ok ==> sesskeysize == SessionKeySize(extra.verifiertype)
    ensures
      var vfrdata := HexDecode(extra.authvfrdata);
      if extra.verifiertype == VERIFIER_TYPE_10G then
        (ok <==> c.desSupported)
        && (ok ==> passwordhash == DesHash(c, user, password) + Zeros(8) && sesskeysize == 32)
      else if extra.verifiertype == VERIFIER_TYPE_12C then
        (ok <==> vfrdata != [] && extra.authpbkdf2vgencount != 0)
        && (ok ==>
              && sesskeysize == 32
              && passwordhash == c.sha512(c.pbkdf2(password, vfrdata + Ascii("AUTH_PBKDF2_SPEEDY_KEY"), 64,
                                                   extra.authpbkdf2vgencount) + vfrdata)[..32])
      else
        (ok <==> vfrdata != []
                 && (extra.verifiertype == VERIFIER_TYPE_11G_1 || extra.verifiertype == VERIFIER_TYPE_11G_2))
        && (ok ==> passwordhash == c.sha1(password + vfrdata) + Zeros(4) && sesskeysize == 48)
  {
    assert SpeedyKey() == Ascii("AUTH_PBKDF2_SPEEDY_KEY");
    hide SpeedyKey, DesHash, HexDecode, Lawful, Ascii;
    if !Supported(c, extra.verifiertype) {
      return false, [], 0;
    }
    var vfrdata := HexDecode(extra.authvfrdata);
    if |vfrdata| == 0 && extra.verifiertype != VERIFIER_TYPE_10G {
      return false, [], 0;
    }
    ok, passwordhash := PasswordHash(c, user, password, extra.verifiertype, vfrdata, extra.authpbkdf2vgencount);
    sesskeysize := SessionKeySize(extra.verifiertype);
  }

  // ------------------------------------------------------------ the challenge

  function Pad(size: nat): (r: Bytes)
    requires size < 256
    ensures |r| == size
  {
    seq(size, _ => size)
  }

  /** A session key: random bytes, and padding for the 11g verifier, where each byte is their number. */
  function SessionKey(verifiertype: nat, random: Bytes): (r: Bytes)
    requires |random| == MaterialSize(verifiertype)
    ensures |r| == SessionKeySize(verifiertype)
  {
    random + Pad(SessionKeySize(verifiertype) - MaterialSize(verifiertype))
  }

  ghost function Challenge(c: Crypto, user: Bytes, password: Bytes, extra: Extra, random: Bytes): Option<string>
    requires Lawful(c) && |random| == MaterialSize(extra.verifiertype)
  {
    match KeyEncryptionKey(c, user, password, extra)
    case None => None
    case Some(kek) => Some(HexEncodeUpper(c.aesEncrypt(kek, SessionKey(extra.verifiertype, random))))
  }

  /** The padding goes in first. */
  method FillSessionKey(sesskey: array<Byte>, random: Bytes, pad: Bytes)
    requires |random| + |pad| <= sesskey.Length
    modifies sesskey
    ensures sesskey[..|random| + |pad|] == random + pad
  {
    Copy(sesskey, |random|, pad);
    ghost var padded := sesskey[..];
    assert padded[|random|..|random| + |pad|] == pad;
    Copy(sesskey, 0, random);
    assert padded[|random|..][..|pad|] == padded[|random|..|random| + |pad|];
  }

  /** The random bytes are given. */
  method O5logonChallenge(c: Crypto, user: Bytes, password: Bytes, extra: Extra, random: Bytes)
      returns (ok: bool, challenge: string)
    requires Lawful(c) && |random| == MaterialSize(extra.verifiertype)
    ensures ok <==> Challenge(c, user, password, extra, random).Some?
    ensures ok ==> challenge == Challenge(c, user, password, extra, random).value
    ensures ok ==> challenge == HexEncodeUpper(c.aesEncrypt(KeyEncryptionKey(c, user, password, extra).value,
      random + if extra.verifiertype == VERIFIER_TYPE_10G || extra.verifiertype == VERIFIER_TYPE_12C then []
               else [8, 8, 8, 8, 8, 8, 8, 8]))
  {
    assert Pad(8) == [8, 8, 8, 8, 8, 8, 8, 8] && Pad(0) == [];
    hide KeyEncryptionKey, HexEncodeUpper, Lawful;
    var passwordhash, sesskeysize;
    ok, passwordhash, sesskeysize := O5logonParameters(c, user, password, extra);
    if !ok {
      return false, "";
    }
    var padsize := if sesskeysize == SESSION_KEY_SIZE_11G then SESSION_KEY_PAD_SIZE_11G else 0;
    var materialsize := sesskeysize - padsize;
    var sesskey := new Byte[SESSION_KEY_SIZE_11G];
    var encsesskey := new Byte[SESSION_KEY_SIZE_11G];
    FillSessionKey(sesskey, random, Pad(padsize));
    ok := AesCbc(c, true, passwordhash, sesskey[..sesskeysize], encsesskey);
    challenge := HexEncodeUpper(encsesskey[..sesskeysize]);
  }

  // ------------------------------------------------------------ the key made of both session keys

  function Xor(a: Byte, b: Byte): Byte {
    ((a as bv8) ^ (b as bv8)) as int
  }

  function XorBytes(a: Bytes, b: Bytes): (r: Bytes)
    requires |a| == |b|
    ensures |r| == |a|
  {
    seq(|a|, i requires 0 <= i < |a| => Xor(a[i], b[i]))
  }

  ghost function ComboKey(c: Crypto, extra: Extra, parta: Bytes, partb: Bytes): (r: Option<Bytes>)
    requires Lawful(c) && |parta| == |partb| == SessionKeySize(extra.verifiertype)
    ensures r.Some? ==> IsAesKey(r.value)
  {
    if extra.verifiertype == VERIFIER_TYPE_12C then
      var csksalt := HexDecode(extra.authpbkdf2csksalt);
      if csksalt == [] || extra.authpbkdf2sdercount == 0 then None
      else Some(c.pbkdf2(Ascii(HexEncodeUpper(partb + parta)), csksalt, 32, extra.authpbkdf2sdercount))
    else if extra.verifiertype == VERIFIER_TYPE_10G then
      Some(c.md5(XorBytes(parta[16..32], partb[16..32])))
    else
      var b := XorBytes(parta[16..40], partb[16..40]);
      Some(c.md5(b[..16]) + c.md5(b[16..24])[..8])
  }

  /** The loop that both the 10g and the 11g verifier have. */
  method XorFrom16(parta: Bytes, partb: Bytes, size: nat) returns (b: array<Byte>)
    requires 16 + size <= |parta| == |partb|
    ensures fresh(b) && b[..] == XorBytes(parta[16..16 + size], partb[16..16 + size])
  {
    hide Xor;
    b := new Byte[size];
    var i := 0;
    while i < size
      invariant i <= size && b.Length == size
      invariant forall j :: 0 <= j < i ==> b[j] == Xor(parta[16 + j], partb[16 + j])
    {
      b[i] := Xor(parta[16 + i], partb[16 + i]);
      i := i + 1;
    }
  }

  lemma XorInTwoParts(parta: Bytes, partb: Bytes)
    requires |parta| == |partb| >= 40
    ensures
      var all := XorBytes(parta[16..40], partb[16..40]);
      all[..16] == XorBytes(parta[16..32], partb[16..32]) && all[16..24] == XorBytes(parta[32..40], partb[32..40])
  {
    hide Xor;
  }

  /** Bit by bit. */
  lemma XorIsBitwise(a: Bytes, b: Bytes)
    requires |a| == |b|
    ensures forall i :: 0 <= i < |a| ==> XorBytes(a, b)[i] as bv8 == (a[i] as bv8) ^ (b[i] as bv8)
  {
    hide Xor;
    forall i | 0 <= i < |a| ensures XorBytes(a, b)[i] as bv8 == (a[i] as bv8) ^ (b[i] as bv8) {
      XorBack(a[i], b[i], a[i] as bv8, b[i] as bv8);
    }
  }

  lemma XorIs(a: Byte, b: Byte, x: bv8, y: bv8)
    requires x == a as bv8 && y == b as bv8
    ensures Xor(a, b) == (x ^ y) as int
  {
  }

  lemma XorBack(a: Byte, b: Byte, x: bv8, y: bv8)
    requires x == a as bv8 && y == b as bv8
    ensures Xor(a, b) as bv8 == x ^ y
  {
    BitsBack(x ^ y);
    XorIs(a, b, x, y);
    hide Xor;
  }

  lemma BitsBack(x: bv8)
    ensures (x as int) as bv8 == x
  {
  }

  method O5logonComboKey(c: Crypto, extra: Extra, parta: Bytes, partb: Bytes) returns (ok: bool, combokey: Bytes)
    requires Lawful(c) && |parta| == |partb| == SessionKeySize(extra.verifiertype)
    ensures ok <==> ComboKey(c, extra, parta, partb).Some?
    ensures ok ==> combokey == ComboKey(c, extra, parta, partb).value
    ensures extra.verifiertype == VERIFIER_TYPE_12C ==>
      var csksalt := HexDecode(extra.authpbkdf2csksalt);
      (ok <==> csksalt != [] && extra.authpbkdf2sdercount != 0)
      && (ok ==> combokey == c.pbkdf2(Ascii(HexEncodeUpper(partb + parta)), csksalt, 32, extra.authpbkdf2sdercount))
    ensures extra.verifiertype == VERIFIER_TYPE_10G ==>
      ok && combokey == c.md5(XorBytes(parta[16..32], partb[16..32]))
    ensures extra.verifiertype != VERIFIER_TYPE_12C && extra.verifiertype != VERIFIER_TYPE_10G ==>
      ok && combokey == c.md5(XorBytes(parta[16..32], partb[16..32])) + c.md5(XorBytes(parta[32..40], partb[32..40]))[..8]
  {
    hide XorBytes, Ascii, HexEncodeUpper, HexDecode;
    if extra.verifiertype == VERIFIER_TYPE_12C {
      var hex := HexEncodeUpper(partb + parta);
      var csksalt := HexDecode(extra.authpbkdf2csksalt);
      ok := |csksalt| != 0 && extra.authpbkdf2sdercount != 0;
      combokey := if ok then c.pbkdf2(Ascii(hex), csksalt, 32, extra.authpbkdf2sdercount) else [];
      return;
    }
    if extra.verifiertype == VERIFIER_TYPE_10G {
      var b := XorFrom16(parta, partb, 16);
      return true, c.md5(b[..]);
    }
    var b := XorFrom16(parta, partb, 24);
    ghost var all := b[..];
    assert b[..16] == all[..16] && b[16..] == all[16..24];
    XorInTwoParts(parta, partb);
    return true, c.md5(b[..16]) + c.md5(b[16..])[..8];
  }

  /** What is decrypted of a session key in hex, if it has the right size. */
  ghost function SentSessionKey(c: Crypto, kek: Bytes, hex: string, size: nat): (r: Option<Bytes>)
    requires Lawful(c) && IsAesKey(kek) && size % 16 == 0
    ensures r.Some? ==> |r.value| == size
  {
    if |HexDecode(hex)| != size then None
    else
      assert AesLaw(c, kek, HexDecode(hex));
      Some(c.aesDecrypt(kek, HexDecode(hex)))
  }

  /** The combo key, from both session keys as they were sent. */
  ghost function SentComboKey(c: Crypto, user: Bytes, password: Bytes, extra: Extra): (r: Option<Bytes>)
    requires Lawful(c)
    ensures r.Some? ==> IsAesKey(r.value)
  {
    var size := SessionKeySize(extra.verifiertype);
    match KeyEncryptionKey(c, user, password, extra)
    case None => None
    case Some(kek) =>
      var parta := SentSessionKey(c, kek, extra.serverauthsesskey, size);
      var partb := SentSessionKey(c, kek, extra.clientauthsesskey, size);
      if parta.None? || partb.None? then None else ComboKey(c, extra, parta.value, partb.value)
  }

  /** Decodes and decrypts one session key. */
  method ReadSessionKey(c: Crypto, kek: Bytes, hex: string, size: nat) returns (ok: bool, part: Bytes)
    requires Lawful(c) && IsAesKey(kek) && size % 16 == 0 && size <= SESSION_KEY_SIZE_11G
    ensures ok <==> SentSessionKey(c, kek, hex, size).Some?
    ensures ok ==> part == SentSessionKey(c, kek, hex, size).value
  {
    var encsesskey := new Byte[SESSION_KEY_SIZE_11G];
    var out := new Byte[SESSION_KEY_SIZE_11G];
    ok := HexDecodeExactly(hex, size, encsesskey);
    if ok {
      ok := AesCbc(c, false, kek, encsesskey[..size], out);
    }
    part := out[..size];
  }

  method O5logonComboKeyFromExtra(c: Crypto, user: Bytes, password: Bytes, extra: Extra)
      returns (ok: bool, combokey: Bytes)
    requires Lawful(c)
    ensures ok <==> SentComboKey(c, user, password, extra).Some?
    ensures ok ==> combokey == SentComboKey(c, user, password, extra).value
  {
    hide Lawful, KeyEncryptionKey, SentSessionKey, ComboKey;
    combokey := [];
    var passwordhash, sesskeysize;
    ok, passwordhash, sesskeysize := O5logonParameters(c, user, password, extra);
    if !ok {
      return;
    }
    var parta, partb := [], [];
    ok, parta := ReadSessionKey(c, passwordhash, extra.serverauthsesskey, sesskeysize);
    if ok {
      ok, partb := ReadSessionKey(c, passwordhash, extra.clientauthsesskey, sesskeysize);
    }
    if ok {
      ok, combokey := O5logonComboKey(c, extra, parta, partb);
    }
  }

  // ------------------------------------------------------------ the password

  /** The last byte gives the number of padding bytes, each of which is that number, after the salt. */
  predicate IsPadded(b: Bytes) {
    |b| > 16 &&
    var pad := b[|b| - 1];
    1 <= pad <= 16 && |b| >= pad + 16 && forall i :: |b| - pad <= i < |b| ==> b[i] == pad
  }

  function Stripped(b: Bytes): Bytes
    requires IsPadded(b)
  {
    b[16..|b| - b[|b| - 1]]
  }

  /** What a client encrypts: salt, the password, and padding. */
  predicate Frames(b: Bytes, salt: Bytes, password: Bytes, pad: nat) {
    1 <= pad <= 16 && |salt| == 16 && b == salt + password + Pad(pad)
  }

  /** Finds the end of the password. */
  method StripPadding(decpassword: array<Byte>, size: nat) returns (ok: bool, passwordsize: nat)
    requires 16 < size <= decpassword.Length
    ensures ok <==> IsPadded(decpassword[..size])
    ensures ok ==> 16 + passwordsize <= size && decpassword[16..16 + passwordsize] == Stripped(decpassword[..size])
  {
    passwordsize := 0;
    var pad := decpassword[size - 1];
    ghost var b := decpassword[..size];
    ok := pad >= 1 && pad <= 16 && size >= pad + 16;
    ghost var inRange := ok;
    var i := 0;
    while ok && i < pad
      invariant 0 <= i && (inRange ==> i <= pad)
      invariant ok ==> inRange && forall j :: size - i <= j < size ==> b[j] == pad
      invariant inRange && !ok ==> exists j :: size - pad <= j < size && b[j] != pad
    {
      ok := decpassword[size - 1 - i] == pad;
      assert b[size - 1 - i] == decpassword[size - 1 - i];
      i := i + 1;
    }
    if ok {
      passwordsize := size - 16 - pad;
      PartOfFront(decpassword, size, 16, size - pad);
    }
  }

  /** The check, once the key is known. */
  ghost predicate Accepts(c: Crypto, combokey: Bytes, authpassword: string, password: Bytes) {
    var enc := HexDecode(authpassword);
    && |enc| > 16 && |enc| % 16 == 0
    && exists salt, pad :: Frames(c.aesDecrypt(combokey, enc), salt, password, pad)
  }

  /** What goes to the caller that wants the password that was supplied. */
  ghost function Supplied(c: Crypto, combokey: Bytes, authpassword: string): Bytes {
    var enc := HexDecode(authpassword);
    if |enc| > 16 && |enc| % 16 == 0 && IsPadded(c.aesDecrypt(combokey, enc))
    then Stripped(c.aesDecrypt(combokey, enc)) else []
  }

  method O5logonVerify(c: Crypto, authpassword: string, user: Bytes, password: Bytes, extra: Extra)
      returns (ok: bool, supplied: Bytes)
    requires Lawful(c)
    ensures var key := SentComboKey(c, user, password, extra);
      if key.None? then !ok && supplied == []
      else (ok <==> Accepts(c, key.value, authpassword, password)) && supplied == Supplied(c, key.value, authpassword)
  {
    hide Lawful, SentComboKey, IsPadded, Stripped, HexDecode;
    var combokey;
    supplied := [];
    ok, combokey := O5logonComboKeyFromExtra(c, user, password, extra);
    if !ok {
      return;
    }
    var encpassword := HexDecode(authpassword);
    var size := |encpassword|;
    var decpassword := new Byte[size + 1];
    ok := size > 16 && size % 16 == 0;
    if ok {
      ok := AesCbc(c, false, combokey, encpassword, decpassword);
    }
    var passwordsize := 0;
    if ok {
      ghost var plain := decpassword[..size];
      AnyFrame(plain, password);
      ok, passwordsize := StripPadding(decpassword, size);
      if ok {
        supplied := decpassword[16..16 + passwordsize];
        ok := passwordsize == |password| && supplied == password;
      }
    }
  }

  // ------------------------------------------------------------ framing

  /** Framing and stripping are inverse: a frame of a password is padded and strips to it, and what is
      padded is a frame of what it strips to, by one salt and pad only. */
  lemma FramesIff(b: Bytes, salt: Bytes, password: Bytes, pad: nat)
    ensures Frames(b, salt, password, pad)
       <==> IsPadded(b) && Stripped(b) == password && salt == b[..16] && pad == b[|b| - 1]
  {
    if Frames(b, salt, password, pad) {
      assert b[|b| - 1] == pad;
    }
    if IsPadded(b) && Stripped(b) == password && salt == b[..16] && pad == b[|b| - 1] {
      assert b == b[..16] + b[16..|b| - pad] + b[|b| - pad..];
      assert b[|b| - pad..] == Pad(pad);
    }
  }

  lemma AnyFrame(b: Bytes, password: Bytes)
    ensures (exists salt, pad :: Frames(b, salt, password, pad)) <==> IsPadded(b) && Stripped(b) == password
  {
    if IsPadded(b) && Stripped(b) == password {
      FramesIff(b, b[..16], password, b[|b| - 1]);
    }
    forall salt, pad | Frames(b, salt, password, pad) ensures IsPadded(b) && Stripped(b) == password {
      FramesIff(b, salt, password, pad);
    }
  }

  /** Under one key, what a client sent is accepted for one password only. */
  lemma OnePassword(c: Crypto, combokey: Bytes, authpassword: string, password: Bytes, other: Bytes)
    requires Accepts(c, combokey, authpassword, password) && Accepts(c, combokey, authpassword, other)
    ensures password == other
  {
    var b := c.aesDecrypt(combokey, HexDecode(authpassword));
    AnyFrame(b, password);
    AnyFrame(b, other);
  }

  // ------------------------------------------------------------ the exchange

  function PadSize(password: Bytes): (r: nat)
    ensures 1 <= r <= 16 && (16 + |password| + r) % 16 == 0
  {
    16 - |password| % 16
  }

  /** A session key that was sent under the key encryption key is the one that is read. */
  lemma SessionKeyReadsBack(c: Crypto, kek: Bytes, sesskey: Bytes)
    requires Lawful(c) && IsAesKey(kek) && |sesskey| % 16 == 0
    ensures SentSessionKey(c, kek, HexEncodeUpper(c.aesEncrypt(kek, sesskey)), |sesskey|) == Some(sesskey)
  {
    AesInverse(c, kek, sesskey);
    HexReadsBack(c.aesEncrypt(kek, sesskey));
  }

  /** The server, which keeps nothing, gets both session keys back: its own from the challenge it made, and
      the client's. */
  lemma BothPartsRecovered(c: Crypto, user: Bytes, password: Bytes, extra: Extra, random: Bytes, partb: Bytes)
    requires Lawful(c) && |random| == MaterialSize(extra.verifiertype) && |partb| == SessionKeySize(extra.verifiertype)
    requires KeyEncryptionKey(c, user, password, extra).Some?
    requires Some(extra.serverauthsesskey) == Challenge(c, user, password, extra, random)
    requires extra.clientauthsesskey
          == HexEncodeUpper(c.aesEncrypt(KeyEncryptionKey(c, user, password, extra).value, partb))
    ensures SentComboKey(c, user, password, extra) == ComboKey(c, extra, SessionKey(extra.verifiertype, random), partb)
  {
    var kek := KeyEncryptionKey(c, user, password, extra).value;
    SessionKeyReadsBack(c, kek, SessionKey(extra.verifiertype, random));
    SessionKeyReadsBack(c, kek, partb);
    hide Lawful, KeyEncryptionKey, ComboKey, SentSessionKey, HexEncodeUpper;
  }

  /** What an honest client sends under a key. */
  ghost function ClientPassword(c: Crypto, combokey: Bytes, salt: Bytes, password: Bytes): string {
    HexEncodeUpper(c.aesEncrypt(combokey, salt + password + Pad(PadSize(password))))
  }

  /** Under the same key, a password is accepted iff it is the client's, and the client's is supplied. */
  lemma ClientAcceptedIff(c: Crypto, combokey: Bytes, salt: Bytes, password: Bytes, stored: Bytes)
    requires Lawful(c) && IsAesKey(combokey) && |salt| == 16
    ensures Accepts(c, combokey, ClientPassword(c, combokey, salt, password), stored) <==> stored == password
    ensures Supplied(c, combokey, ClientPassword(c, combokey, salt, password)) == password
  {
    var b := salt + password + Pad(PadSize(password));
    AesInverse(c, combokey, b);
    HexReadsBack(c.aesEncrypt(combokey, b));
    FramesIff(b, salt, password, PadSize(password));
    AnyFrame(b, stored);
  }

  /** The key that a client makes of both session keys. */
  ghost predicate IsClientKey(c: Crypto, extra: Extra, parta: Bytes, partb: Bytes, key: Bytes) {
    if extra.verifiertype == VERIFIER_TYPE_12C then
      var csksalt := HexDecode(extra.authpbkdf2csksalt);
      && |parta| == |partb| == 32 && csksalt != [] && extra.authpbkdf2sdercount != 0
      && key == c.pbkdf2(Ascii(HexEncodeUpper(partb + parta)), csksalt, 32, extra.authpbkdf2sdercount)
    else if extra.verifiertype == VERIFIER_TYPE_10G then
      |parta| == |partb| == 32 && key == c.md5(XorBytes(parta[16..32], partb[16..32]))
    else
      && |parta| == |partb| == 48
      && var second := c.md5(XorBytes(parta[32..40], partb[32..40]));
         |second| == 16 && key == c.md5(XorBytes(parta[16..32], partb[16..32])) + second[..8]
  }

  lemma ClientKeyIsComboKey(c: Crypto, extra: Extra, parta: Bytes, partb: Bytes, key: Bytes)
    requires Lawful(c) && IsClientKey(c, extra, parta, partb, key)
    ensures |parta| == |partb| == SessionKeySize(extra.verifiertype) && ComboKey(c, extra, parta, partb) == Some(key)
  {
    if extra.verifiertype != VERIFIER_TYPE_12C && extra.verifiertype != VERIFIER_TYPE_10G {
      XorInTwoParts(parta, partb);
    }
    hide XorBytes, Ascii, HexDecode, HexEncodeUpper;
  }

  /** A server's session key: random bytes, and for the 11g verifiers eight bytes of padding. */
  predicate IsServerKey(verifiertype: nat, random: Bytes, parta: Bytes) {
    parta == random + if verifiertype == VERIFIER_TYPE_12C || verifiertype == VERIFIER_TYPE_10G then []
                      else [8, 8, 8, 8, 8, 8, 8, 8]
  }

  lemma ServerKeyIsSessionKey(verifiertype: nat, random: Bytes, parta: Bytes)
    requires |random| == MaterialSize(verifiertype) && IsServerKey(verifiertype, random, parta)
    ensures parta == SessionKey(verifiertype, random)
  {
    assert Pad(8) == [8, 8, 8, 8, 8, 8, 8, 8] && Pad(0) == [];
  }

  /** Challenge, then verify: an honest client, which makes the combo key of the session keys it knows as the
      type says, and puts salt in front of its password and padding after it, is accepted under every verifier
      type. */
  lemma HonestLoginAccepted(c: Crypto, user: Bytes, password: Bytes, extra: Extra, random: Bytes, parta: Bytes,
                            partb: Bytes, combokey: Bytes, salt: Bytes, pad: Bytes)
    requires Lawful(c) && |random| == MaterialSize(extra.verifiertype)
    requires KeyEncryptionKey(c, user, password, extra).Some?
    requires Some(extra.serverauthsesskey) == Challenge(c, user, password, extra, random)
    requires extra.clientauthsesskey
          == HexEncodeUpper(c.aesEncrypt(KeyEncryptionKey(c, user, password, extra).value, partb))
    requires IsServerKey(extra.verifiertype, random, parta) && IsClientKey(c, extra, parta, partb, combokey)
    requires |salt| == 16 && 1 <= |pad| <= 16 && (forall i :: 0 <= i < |pad| ==> pad[i] == |pad|)
    requires (|salt| + |password| + |pad|) % 16 == 0
    ensures SentComboKey(c, user, password, extra) == Some(combokey)
    ensures Accepts(c, combokey, HexEncodeUpper(c.aesEncrypt(combokey, salt + password + pad)), password)
  {
    assert pad == Pad(|pad|);
    ServerKeyIsSessionKey(extra.verifiertype, random, parta);
    ClientKeyIsComboKey(c, extra, parta, partb, combokey);
    hide Pad, HexEncodeUpper, KeyEncryptionKey, Challenge, IsClientKey, IsServerKey, Lawful, ComboKey, SessionKey;
    BothPartsRecovered(c, user, password, extra, random, partb);
    FramedIsAccepted(c, combokey, salt, password, |pad|);
  }

  lemma FramedIsAccepted(c: Crypto, combokey: Bytes, salt: Bytes, password: Bytes, pad: nat)
    requires Lawful(c) && IsAesKey(combokey) && |salt| == 16 && 1 <= pad <= 16 && (16 + |password| + pad) % 16 == 0
    ensures Accepts(c, combokey, HexEncodeUpper(c.aesEncrypt(combokey, salt + password + Pad(pad))), password)
  {
    var b := salt + password + Pad(pad);
    AesInverse(c, combokey, b);
    HexReadsBack(c.aesEncrypt(combokey, b));
    hide Lawful, HexEncodeUpper, HexDecode;
    assert Frames(b, salt, password, pad);
  }

  /** Of the session keys, only so much decides the combo key: for the 11g verifiers bytes 16 to 39, so
      not the padding, for the 10g verifier bytes 16 to 31. */
  lemma ComboKeyReads(c: Crypto, extra: Extra, parta: Bytes, partb: Bytes, parta': Bytes, partb': Bytes)
    requires Lawful(c) && extra.verifiertype != VERIFIER_TYPE_12C
    requires |parta| == |partb| == |parta'| == |partb'| == SessionKeySize(extra.verifiertype)
    requires var end := if extra.verifiertype == VERIFIER_TYPE_10G then 32 else MaterialSize(extra.verifiertype);
      parta[16..end] == parta'[16..end] && partb[16..end] == partb'[16..end]
    ensures ComboKey(c, extra, parta, partb) == ComboKey(c, extra, parta', partb')
  {
  }
}
