/** What src/auths/oracle_userlist.cpp's logins are built from: hex, the ciphers and hashes, which are
    only known by their laws, and the keys that come of them. */
module OracleCrypto {
  import opened Characters

  type Byte = b: int | 0 <= b < 256

  type Bytes = seq<Byte>

  function Zeros(n: nat): (r: Bytes)
    ensures |r| == n
  {
    seq(n, _ => 0)
  }

  /** bytestring::copy(). */
  method Copy(out: array<Byte>, at: nat, bytes: Bytes)
    requires at + |bytes| <= out.Length
    modifies out
    ensures out[..] == old(out[..at]) + bytes + old(out[at + |bytes|..])
  {
    var i := 0;
    while i < |bytes|
      invariant i <= |bytes|
      invariant forall j :: 0 <= j < out.Length ==>
        out[j] == if at <= j < at + i then bytes[j - at] else old(out[j])
    {
      out[at + i] := bytes[i];
      i := i + 1;
    }
  }

  /** Part of the front of an array is part of the array. */
  lemma PartOfFront(a: array<Byte>, size: nat, i: nat, j: nat)
    requires i <= j <= size <= a.Length
    ensures a[..size][i..j] == a[i..j]
  {
  }

  // ------------------------------------------------------------ hex

  predicate IsHexDigit(c: char) {
    '0' <= c <= '9' || 'a' <= c <= 'f' || 'A' <= c <= 'F'
  }

  /** Junk reads as zero. */
  function HexValue(c: char): (r: nat)
    ensures r < 16
  {
    if '0' <= c <= '9' then c as int - '0' as int
    else if 'a' <= c <= 'f' then c as int - 'a' as int + 10
    else if 'A' <= c <= 'F' then c as int - 'A' as int + 10
    else 0
  }

  function HexDigit(n: nat): (r: char)
    requires n < 16
    ensures IsHexDigit(r) && !('a' <= r <= 'f') && HexValue(r) == n
  {
    if n < 10 then n as char + '0' else (n - 10) as char + 'A'
  }

  /** A last digit without a partner is dropped. */
  function HexDecode(s: string): (r: Bytes)
    ensures |r| == |s| / 2
  {
    if |s| < 2 then [] else [HexValue(s[0]) * 16 + HexValue(s[1])] + HexDecode(s[2..])
  }

  function HexEncodeUpper(b: Bytes): (r: string)
    ensures |r| == 2 * |b|
    ensures forall i :: 0 <= i < |r| ==> IsHexDigit(r[i]) && !('a' <= r[i] <= 'f')
  {
    if b == [] then [] else [HexDigit(b[0] / 16), HexDigit(b[0] % 16)] + HexEncodeUpper(b[1..])
  }

  lemma {:induction false} HexReadsBack(b: Bytes)
    ensures HexDecode(HexEncodeUpper(b)) == b
  {
    if b != [] {
      HexReadsBack(b[1..]);
      var digits := [HexDigit(b[0] / 16), HexDigit(b[0] % 16)];
      assert HexEncodeUpper(b)[2..] == HexEncodeUpper(b[1..]);
      assert b == [b[0]] + b[1..];
    }
  }

  method HexDecodeExactly(value: string, size: nat, out: array<Byte>) returns (ok: bool)
    requires size <= out.Length
    modifies out
    ensures ok <==> |HexDecode(value)| == size
    ensures ok ==> out[..size] == HexDecode(value)
  {
    var decoded := HexDecode(value);
    ok := |decoded| == size;
    if ok {
      Copy(out, 0, decoded);
    }
  }

  // ------------------------------------------------------------ ciphers and hashes

  /** The ciphers take a key, an initial vector where it varies, and what to turn. */
  datatype Crypto = Crypto(
    aesEncrypt: (Bytes, Bytes) -> Bytes, aesDecrypt: (Bytes, Bytes) -> Bytes,
    desEncrypt: (Bytes, Bytes, Bytes) -> Bytes, desDecrypt: (Bytes, Bytes, Bytes) -> Bytes,
    md5: Bytes -> Bytes, sha1: Bytes -> Bytes, sha512: Bytes -> Bytes,
    pbkdf2: (Bytes, Bytes, nat, nat) -> Bytes, desSupported: bool)

  predicate IsAesKey(key: Bytes) {
    |key| == 16 || |key| == 24 || |key| == 32
  }

  predicate IsDesKey(key: Bytes) {
    |key| == 8 || |key| == 24
  }

  ghost predicate AesLaw(c: Crypto, key: Bytes, input: Bytes) {
    IsAesKey(key) && |input| % 16 == 0 ==>
      && |c.aesEncrypt(key, input)| == |c.aesDecrypt(key, input)| == |input|
      && c.aesDecrypt(key, c.aesEncrypt(key, input)) == input
      && c.aesEncrypt(key, c.aesDecrypt(key, input)) == input
  }

  ghost predicate DesLaw(c: Crypto, key: Bytes, iv: Bytes, input: Bytes) {
    IsDesKey(key) && |iv| == 8 && |input| % 8 == 0 ==>
      && |c.desEncrypt(key, iv, input)| == |c.desDecrypt(key, iv, input)| == |input|
      && c.desDecrypt(key, iv, c.desEncrypt(key, iv, input)) == input
      && c.desEncrypt(key, iv, c.desDecrypt(key, iv, input)) == input
  }

  /** Each cipher keeps the length and is undone by its inverse, and each hash has its size. */
  ghost predicate Lawful(c: Crypto) {
    && (forall key, input :: AesLaw(c, key, input))
    && (forall key, iv, input :: DesLaw(c, key, iv, input))
    && (forall input :: |c.md5(input)| == 16)
    && (forall input :: |c.sha1(input)| == 20)
    && (forall input :: |c.sha512(input)| == 64)
    && (forall password, salt, size, count :: |c.pbkdf2(password, salt, size, count)| == size)
  }

  lemma AesInverse(c: Crypto, key: Bytes, input: Bytes)
    requires Lawful(c) && IsAesKey(key) && |input| % 16 == 0
    ensures |c.aesEncrypt(key, input)| == |c.aesDecrypt(key, input)| == |input|
    ensures c.aesDecrypt(key, c.aesEncrypt(key, input)) == input
  {
    assert AesLaw(c, key, input);
  }

  lemma DesInverse(c: Crypto, key: Bytes, iv: Bytes, input: Bytes)
    requires Lawful(c) && IsDesKey(key) && |iv| == 8 && |input| % 8 == 0
    ensures |c.desEncrypt(key, iv, input)| == |c.desDecrypt(key, iv, input)| == |input|
    ensures c.desDecrypt(key, iv, c.desEncrypt(key, iv, input)) == input
  {
    assert DesLaw(c, key, iv, input);
  }

  /** Turns the input with AES in CBC mode, if the sizes suit it. */
  method AesCbc(c: Crypto, encrypt: bool, key: Bytes, input: Bytes, out: array<Byte>) returns (ok: bool)
    requires Lawful(c) && |input| <= out.Length
    modifies out
    ensures ok <==> |input| % 16 == 0 && IsAesKey(key)
    ensures ok ==> out[..|input|] == if encrypt then c.aesEncrypt(key, input) else c.aesDecrypt(key, input)
    ensures out[|input|..] == old(out[|input|..])
  {
    if |input| % 16 != 0 || (|key| != 16 && |key| != 24 && |key| != 32) {
      return false;
    }
    AesInverse(c, key, input);
    Copy(out, 0, if encrypt then c.aesEncrypt(key, input) else c.aesDecrypt(key, input));
    return true;
  }

  /** Turns the input with DES or, by the key's size, 3DES in CBC mode, if the sizes suit it. */
  method DesCbc(c: Crypto, encrypt: bool, key: Bytes, iv: Bytes, input: Bytes, out: array<Byte>) returns (ok: bool)
    requires Lawful(c) && |iv| == 8 && |input| <= out.Length
    modifies out
    ensures ok <==> input != [] && |input| % 8 == 0 && IsDesKey(key)
    ensures ok ==> out[..|input|] == if encrypt then c.desEncrypt(key, iv, input) else c.desDecrypt(key, iv, input)
    ensures out[|input|..] == old(out[|input|..])
  {
    if input == [] || |input| % 8 != 0 || (|key| != 8 && |key| != 24) {
      return false;
    }
    DesInverse(c, key, iv, input);
    Copy(out, 0, if encrypt then c.desEncrypt(key, iv, input) else c.desDecrypt(key, iv, input));
    return true;
  }

  // ------------------------------------------------------------ the DES password hash

  const HASH_KEY: Bytes := [0x01, 0x23, 0x45, 0x67, 0x89, 0xab, 0xcd, 0xef]

  function UpperByte(b: Byte): Byte {
    if 97 <= b <= 122 then b - 32 else b
  }

  function UpperBytes(s: Bytes): (r: Bytes)
    ensures |r| == |s|
  {
    seq(|s|, i requires 0 <= i < |s| => UpperByte(s[i]))
  }

  /** A string in UTF-16, big end first. */
  function Utf16(s: Bytes): (r: Bytes)
    ensures |r| == 2 * |s|
    ensures forall i :: 0 <= i < |s| ==> r[2 * i] == 0 && r[2 * i + 1] == s[i]
  {
    if s == [] then [] else Utf16(s[..|s| - 1]) + [0, s[|s| - 1]]
  }

  function RoundedUp(n: nat): (r: nat)
    ensures r % 8 == 0 && n <= r < n + 8
  {
    (n + 7) / 8 * 8
  }

  /** What is hashed: the name and the password in upper case, filled up with zeros to whole blocks, of
      which there is one at least. */
  function HashInput(user: Bytes, password: Bytes): (r: Bytes)
    ensures |r| % 8 == 0 && |r| >= 8
  {
    var text := Utf16(UpperBytes(user + password));
    text + Zeros((if text == [] then 8 else RoundedUp(|text|)) - |text|)
  }

  function LastBlock(b: Bytes): (r: Bytes)
    requires |b| >= 8
    ensures |r| == 8
  {
    b[|b| - 8..]
  }

  ghost function DesHash(c: Crypto, user: Bytes, password: Bytes): (r: Bytes)
    requires Lawful(c)
    ensures |r| == 8
  {
    var input := HashInput(user, password);
    assert DesLaw(c, HASH_KEY, Zeros(8), input);
    var key := LastBlock(c.desEncrypt(HASH_KEY, Zeros(8), input));
    assert DesLaw(c, key, Zeros(8), input);
    LastBlock(c.desEncrypt(key, Zeros(8), input))
  }

  /** The name and the password in upper case, each byte after a zero byte, and as few zeros as fill up whole
      blocks, of which there is one at least. */
  predicate IsHashInput(input: Bytes, user: Bytes, password: Bytes) {
    var text := user + password;
    && |input| % 8 == 0 && 2 * |text| <= |input| && |input| >= 8 && (|input| == 8 || |input| < 2 * |text| + 8)
    && (forall i :: 0 <= i < |text| ==>
          input[2 * i] == 0 && input[2 * i + 1] == if 97 <= text[i] <= 122 then text[i] - 32 else text[i])
    && forall i :: 2 * |text| <= i < |input| ==> input[i] == 0
  }

  /** The hash is the last block under the last block under a fixed key. */
  lemma DesHashIs(c: Crypto, user: Bytes, password: Bytes, input: Bytes)
    requires Lawful(c) && IsHashInput(input, user, password)
    ensures
      var first := c.desEncrypt([0x01, 0x23, 0x45, 0x67, 0x89, 0xab, 0xcd, 0xef], Zeros(8), input);
      && |first| == |input|
      && var second := c.desEncrypt(first[|first| - 8..], Zeros(8), input);
         |second| == |input| && DesHash(c, user, password) == second[|second| - 8..]
  {
    HashInputIs(user, password, input);
    DesInverse(c, HASH_KEY, Zeros(8), input);
    DesInverse(c, LastBlock(c.desEncrypt(HASH_KEY, Zeros(8), input)), Zeros(8), input);
    hide Lawful, HashInput;
  }

  lemma HashInputIs(user: Bytes, password: Bytes, input: Bytes)
    requires IsHashInput(input, user, password)
    ensures input == HashInput(user, password)
  {
    var upper := UpperBytes(user + password);
    var text := Utf16(upper);
    var zeros := Zeros(|input| - |text|);
    hide Utf16;
    forall i | 0 <= i < |input| ensures input[i] == (text + zeros)[i] {
      if i < |text| {
        var j := i / 2;
        assert input[2 * j] == 0 == text[2 * j] && input[2 * j + 1] == upper[j] == text[2 * j + 1];
        assert i == 2 * j || i == 2 * j + 1;
      }
    }
    assert text + zeros == HashInput(user, password);
  }

  /** The hash can't tell passwords apart that differ in case only. */
  lemma DesHashIgnoresCase(c: Crypto, user: Bytes, password: Bytes, user': Bytes, password': Bytes)
    requires Lawful(c) && UpperBytes(user) == UpperBytes(user') && UpperBytes(password) == UpperBytes(password')
    ensures DesHash(c, user, password) == DesHash(c, user', password')
  {
    UpperOfBoth(user, password);
    UpperOfBoth(user', password');
  }

  lemma UpperOfBoth(a: Bytes, b: Bytes)
    ensures UpperBytes(a + b) == UpperBytes(a) + UpperBytes(b)
  {
  }

  method HashInputBytes(user: Bytes, password: Bytes) returns (input: array<Byte>)
    ensures fresh(input) && input[..] == HashInput(user, password)
  {
    hide UpperBytes;
    var upper := UpperBytes(user + password);
    var insize := (|upper| * 2 + 7) / 8 * 8;
    if insize == 0 {
      insize := 8;
    }
    input := new Byte[insize](_ => 0);
    assert input[..] == Zeros(insize);
    Utf16Into(input, upper);
  }

  method Utf16Into(input: array<Byte>, upper: Bytes)
    requires 2 * |upper| <= input.Length && input[..] == Zeros(input.Length)
    modifies input
    ensures input[..] == Utf16(upper) + Zeros(input.Length - 2 * |upper|)
  {
    hide Utf16;
    assert Utf16([]) == [];
    var i := 0;
    while i < |upper|
      invariant i <= |upper| && input[..] == Utf16(upper[..i]) + Zeros(input.Length - 2 * i)
    {
      ghost var before := input[..];
      input[i * 2 + 1] := upper[i];
      OneMoreUnit(upper, i, before, input[..]);
      i := i + 1;
    }
    assert upper[..i] == upper;
  }

  lemma OneMoreUnit(upper: Bytes, i: nat, before: Bytes, after: Bytes)
    requires i < |upper| && |before| >= 2 * i + 2 && after == before[2 * i + 1 := upper[i]]
    requires before == Utf16(upper[..i]) + Zeros(|before| - 2 * i)
    ensures after == Utf16(upper[..i + 1]) + Zeros(|before| - 2 * (i + 1))
  {
    assert upper[..i + 1][..i] == upper[..i];
    assert Utf16(upper[..i + 1]) == Utf16(upper[..i]) + [0, upper[i]];
    hide Utf16;
    assert Zeros(|before| - 2 * i) == [0, 0] + Zeros(|before| - 2 * (i + 1));
  }

  method O3logonPasswordHash(c: Crypto, user: Bytes, password: Bytes) returns (hash: Bytes)
    requires Lawful(c)
    ensures hash == DesHash(c, user, password)
    ensures forall input :: IsHashInput(input, user, password) ==>
      var first := c.desEncrypt([0x01, 0x23, 0x45, 0x67, 0x89, 0xab, 0xcd, 0xef], Zeros(8), input);
      && |first| == |input|
      && var second := c.desEncrypt(first[|first| - 8..], Zeros(8), input);
         |second| == |input| && hash == second[|second| - 8..]
  {
    forall input | IsHashInput(input, user, password) {
      DesHashIs(c, user, password, input);
    }
    hide HashInput, Lawful, IsHashInput;
    var input := HashInputBytes(user, password);
    var n := input.Length;
    assert |input[..]| == n;
    var out := new Byte[n];
    var ok := DesCbc(c, true, HASH_KEY, Zeros(8), input[..], out);
    assert out[..] == out[..n];
    var key := out[n - 8..];
    ok := DesCbc(c, true, key, Zeros(8), input[..], out);
    assert out[..] == out[..n];
    hash := out[n - 8..];
  }
}
