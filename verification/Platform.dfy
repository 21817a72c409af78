/**
 What the portal takes from .NET, from the Unicode tables and from the BCrypt library:
 functions this model leaves open, and the laws it relies on.
 */
module Platform {
  import opened Text

  /** The general categories the password policy tells apart; everything else is `Other`. */
  datatype Category = Lu | Ll | Lt | Lm | Lo | Nd | Other

  type CategoryTable = CodeUnit -> Category

  type Salt = nat
  type Digest = nat

  datatype Runtime = Runtime(
    category: CategoryTable,
    isWhiteSpace: CodeUnit -> bool,
    toLower: CodeUnit -> CodeUnit,
    blowfish: (Salt, seq<Byte>) -> Digest)

  ghost predicate LawfulText(env: Runtime) {
    && (forall u: CodeUnit :: env.isWhiteSpace(u) ==> env.category(u) == Other)
    && (forall u: CodeUnit :: env.toLower(env.toLower(u)) == env.toLower(u))
    && (forall u: CodeUnit :: env.isWhiteSpace(env.toLower(u)) == env.isWhiteSpace(u))
  }

  /** For one salt, different 72-byte keys give different digests. */
  ghost predicate LawfulHash(env: Runtime) {
    forall salt: Salt, a: seq<Byte>, b: seq<Byte> {:trigger env.blowfish(salt, a), env.blowfish(salt, b)} ::
      |a| == 72 && |b| == 72 && env.blowfish(salt, a) == env.blowfish(salt, b) ==> a == b
  }

  ghost predicate Lawful(env: Runtime) {
    LawfulText(env) && LawfulHash(env)
  }

  // ----- The laws can be met: an ASCII runtime with a positional digest -----

  function AsciiCategory(u: CodeUnit): Category {
    if 0x41 <= u <= 0x5A then Lu
    else if 0x61 <= u <= 0x7A then Ll
    else if 0x30 <= u <= 0x39 then Nd
    else Other
  }

  function PositionalDigest(key: seq<Byte>): Digest {
    if key == [] then 0 else key[0] + 0x100 * PositionalDigest(key[1..])
  }

  lemma {:induction false} PositionalDigestInjective(a: seq<Byte>, b: seq<Byte>)
    requires |a| == |b| && PositionalDigest(a) == PositionalDigest(b)
    ensures a == b
  {
    if a != [] {
      PositionalDigestInjective(a[1..], b[1..]);
      assert a == [a[0]] + a[1..] && b == [b[0]] + b[1..];
    }
  }

  lemma LawfulRuntimeExists()
    ensures exists env: Runtime :: Lawful(env)
  {
    var env := Runtime(AsciiCategory, u => u == 0x20, u => if 0x41 <= u <= 0x5A then u + 0x20 else u,
                       (salt, key) => PositionalDigest(key));
    forall salt: Salt, a: seq<Byte>, b: seq<Byte> |
      |a| == 72 && |b| == 72 && env.blowfish(salt, a) == env.blowfish(salt, b)
      ensures a == b
    {
      PositionalDigestInjective(a, b);
    }
    assert Lawful(env);
  }
}
