/**
 The `salt:hash` password format of lib/users-db.ts. The salt is 16 random
 bytes written as hex; the hash is PBKDF2-SHA512 over the password and that hex
 salt, 100000 iterations, 64 bytes, also written as hex. Randomness and the key
 derivation are parameters: the derivation is any deterministic function that
 yields 64 bytes.
 */
module Password {
  import opened Text
  import opened Hex

  const Iterations: nat := 100000
  const KeyLength: nat := 64
  const SaltLength: nat := 16

  type DerivedKey = k: seq<byte> | |k| == KeyLength witness seq(64, _ => 0)

  /** `crypto.pbkdf2Sync(password, salt, Iterations, KeyLength, 'sha512')`. */
  type Kdf = (string, string) -> DerivedKey

  /** `hashPassword`, given the 16 bytes `randomBytes` produced. */
  function HashPassword(password: string, saltBytes: seq<byte>, kdf: Kdf): (stored: string)
    requires |saltBytes| == SaltLength
    ensures |stored| == 2 * SaltLength + 1 + 2 * KeyLength
    ensures stored[2 * SaltLength] == ':'
    ensures IsHexString(stored[..2 * SaltLength]) && IsHexString(stored[2 * SaltLength + 1..])
  {
    var salt := ToHex(saltBytes);
    var stored := salt + ":" + ToHex(kdf(password, salt));
    assert stored[..2 * SaltLength] == salt;
    assert stored[2 * SaltLength + 1..] == ToHex(kdf(password, salt));
    stored
  }

  /** `verifyPassword`: splits the stored text on ':' and compares the second
      piece with a fresh derivation under the first. */
  function VerifyPassword(password: string, stored: string, kdf: Kdf): (ok: bool)
    ensures ':' !in stored ==> !ok
    ensures BeforeFirst(stored, ':') == [] ==> !ok
    ensures SecondPiece(stored, ':') == Some([]) ==> !ok
    ensures ok <==>
      BeforeFirst(stored, ':') != [] && SecondPiece(stored, ':') == Some(ToHex(kdf(password, BeforeFirst(stored, ':'))))
  {
    var salt := BeforeFirst(stored, ':');
    var hash := SecondPiece(stored, ':');
    assert |ToHex(kdf(password, salt))| == 2 * KeyLength;
    if salt == [] || hash.None? || hash.value == [] then false
    else hash.value == ToHex(kdf(password, salt))
  }

  lemma BeforeFirstOfJoin(a: string, b: string)
    requires ':' !in a
    ensures BeforeFirst(a + ":" + b, ':') == a
    decreases |a|
  {
    if a != [] {
      assert (a + ":" + b)[1..] == a[1..] + ":" + b;
      BeforeFirstOfJoin(a[1..], b);
    }
  }

  lemma SecondPieceOfJoin(a: string, b: string, c: string)
    requires ':' !in a && ':' !in b
    ensures BeforeFirst(a + ":" + b + c, ':') == a
    ensures c == [] || c[0] == ':' ==> SecondPiece(a + ":" + b + c, ':') == Some(b)
  {
    var s := a + ":" + b + c;
    assert s == a + ":" + (b + c);
    BeforeFirstOfJoin(a, b + c);
    if c == [] || c[0] == ':' {
      assert s[|a| + 1..] == b + c;
      if c == [] {
        assert b + c == b;
        assert BeforeFirst(b, ':') == b by { BeforeFirstWhole(b); }
      } else {
        assert b + c == b + ":" + c[1..];
        BeforeFirstOfJoin(b, c[1..]);
      }
    }
  }

  lemma BeforeFirstWhole(a: string)
    requires ':' !in a
    ensures BeforeFirst(a, ':') == a
  {
  }

  /** A hash made by `hashPassword` verifies against the same password. */
  lemma HashThenVerify(password: string, saltBytes: seq<byte>, kdf: Kdf)
    requires |saltBytes| == SaltLength
    ensures VerifyPassword(password, HashPassword(password, saltBytes, kdf), kdf)
  {
    var salt := ToHex(saltBytes);
    var hash := ToHex(kdf(password, salt));
    HexHasNoColon(salt);
    HexHasNoColon(hash);
    BeforeFirstOfJoin(salt, hash);
    SecondPieceOfJoin(salt, hash, []);
    assert salt + ":" + hash + [] == salt + ":" + hash;
  }

  /** Another password is accepted only when the derivation collides on the
      stored salt. */
  lemma VerifyOnlyOnCollision(password: string, other: string, saltBytes: seq<byte>, kdf: Kdf)
    requires |saltBytes| == SaltLength
    requires VerifyPassword(other, HashPassword(password, saltBytes, kdf), kdf)
    ensures kdf(other, ToHex(saltBytes)) == kdf(password, ToHex(saltBytes))
  {
    var salt := ToHex(saltBytes);
    var hash := ToHex(kdf(password, salt));
    HexHasNoColon(salt);
    HexHasNoColon(hash);
    BeforeFirstOfJoin(salt, hash);
    SecondPieceOfJoin(salt, hash, []);
    assert salt + ":" + hash + [] == salt + ":" + hash;
    ToHexInjective(kdf(other, salt), kdf(password, salt));
  }

  /** Only the first two ':'-separated pieces are read: anything after a
      second ':' does not affect the outcome. */
  lemma VerifyIgnoresTrailingPieces(password: string, salt: string, hash: string, extra: string, kdf: Kdf)
    requires ':' !in salt && ':' !in hash
    ensures VerifyPassword(password, salt + ":" + hash + ":" + extra, kdf) ==
            VerifyPassword(password, salt + ":" + hash, kdf)
  {
    var long := salt + ":" + hash + ":" + extra;
    var short := salt + ":" + hash;
    assert long == salt + ":" + hash + (":" + extra);
    assert short == salt + ":" + hash + [];
    SecondPieceOfJoin(salt, hash, ":" + extra);
    SecondPieceOfJoin(salt, hash, []);
  }
}
