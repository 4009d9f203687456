/**
 Which COSE_Keys are decoded, spelled out type by type (sections 2 of RFC 9053, 4 of RFC 8230, RFC 8778
 and RFC 9964).
 */
module KeyRules {
  import opened Wire
  import opened Keys

  /** A field that is there has this length. */
  predicate OfLength(b: Option<seq<byte>>, n: nat) {
    match b { case None => true case Some(d) => |d| == n }
  }

  predicate NotEmpty(b: Option<seq<byte>>) {
    b.Some? && b.value != []
  }

  predicate AtMost(b: Option<seq<byte>>, n: nat) {
    match b { case None => true case Some(d) => |d| <= n }
  }

  /** An Edwards curve key: a public or a private half, of 32 bytes for Ed25519 and of 57 for Ed448. */
  predicate OkpRule(p: Parts) {
    && (p.x.Some? || p.d.Some?)
    && ((p.info.crv == 6 && OfLength(p.x, 32) && OfLength(p.d, 32)) || (p.info.crv == 7 && OfLength(p.x, 57) && OfLength(p.d, 57)))
  }

  /** An EC2 key: both coordinates or the private scalar, each of the width of the curve. */
  predicate Ec2Rule(p: Parts) {
    && ((p.x.Some? && p.y.Some?) || p.d.Some?)
    && (|| (p.info.crv == 1 && OfLength(p.x, 32) && OfLength(p.y, 32) && OfLength(p.d, 32))
        || (p.info.crv == 2 && OfLength(p.x, 48) && OfLength(p.y, 48) && OfLength(p.d, 48))
        || (p.info.crv == 3 && OfLength(p.x, 66) && OfLength(p.y, 66) && OfLength(p.d, 66)))
  }

  /** An RSA key: modulus and public exponent; and none of the private numbers, or all of them, the
      exponent no wider than the modulus and the others no wider than half of it, rounded up. */
  predicate RsaRule(p: Parts) {
    && NotEmpty(p.n) && NotEmpty(p.x)
    && var half := (|p.n.value| + 1) / 2;
       || (p.y.None? && p.d.None? && p.q.None? && p.dp.None? && p.dq.None? && p.qi.None?)
       || (&& p.y.Some? && p.d.Some? && p.q.Some? && p.dp.Some? && p.dq.Some? && p.qi.Some?
           && |p.y.value| <= |p.n.value| && |p.d.value| <= half && |p.q.value| <= half && |p.dp.value| <= half
           && |p.dq.value| <= half && |p.qi.value| <= half)
  }

  /** An ML-DSA key: one of its three algorithms, the public key, and a seed of 32 bytes if any. */
  predicate AkpRule(p: Parts) {
    (p.info.alg == -48 || p.info.alg == -49 || p.info.alg == -50) && p.n.Some? && OfLength(p.x, 32)
  }

  /** An HSS-LMS key: its algorithm or none, and nothing but the public key. */
  predicate HssLmsRule(p: Parts) {
    (p.info.alg == 0 || p.info.alg == -46) && p.n.Some? && p.x.None? && p.y.None? && p.d.None?
  }

  /** The object that the caller attached, if any, is of the type of the key. */
  predicate ObjectFits(a: Attached, info: KeyInfo) {
    match a
    case NoObject => true
    case EccObject => info.kty == 2
    case Ed25519Object => info.kty == 1 && info.crv == 6
    case Ed448Object => info.kty == 1 && info.crv == 7
    case RsaObject => info.kty == 3
    case BytesObject => info.kty == 4
    case LmsObject => info.kty == 5
    case MlDsaObject => info.kty == 7
  }

  predicate AllWords(p: Parts) {
    && AtMost(p.n, 0xFFFF_FFFF) && AtMost(p.x, 0xFFFF_FFFF) && AtMost(p.y, 0xFFFF_FFFF) && AtMost(p.d, 0xFFFF_FFFF)
    && AtMost(p.q, 0xFFFF_FFFF) && AtMost(p.dp, 0xFFFF_FFFF) && AtMost(p.dq, 0xFFFF_FFFF) && AtMost(p.qi, 0xFFFF_FFFF)
  }

  /** The rule of the key's type; a symmetric key and an unknown type have none. */
  predicate RuleKept(p: Parts, a: Attached) {
    && ObjectFits(a, p.info) && AllWords(p)
    && (p.info.kty == 1 ==> OkpRule(p)) && (p.info.kty == 2 ==> Ec2Rule(p)) && (p.info.kty == 3 ==> RsaRule(p))
    && (p.info.kty == 5 ==> HssLmsRule(p)) && (p.info.kty == 7 ==> AkpRule(p))
  }

  lemma WordsAre(p: Parts)
    ensures Words(p) <==> AllWords(p)
  {
  }

  lemma RsaExactly(p: Parts, a: Attached)
    requires a == NoObject || a == RsaObject
    ensures RsaStatus(p, a).Success? <==> AllWords(p) && RsaRule(p)
  {
    hide Words, AllWords;
    WordsAre(p);
  }

  lemma Ec2Exactly(p: Parts)
    ensures Ec2Status(p).Success? <==> Ec2Rule(p)
  {
  }

  lemma OkpExactly(p: Parts)
    ensures OkpStatus(p).Success? <==> OkpRule(p)
  {
  }

  lemma PostQuantumExactly(p: Parts)
    ensures PostQuantumStatus(p).Success? <==> (p.info.kty == 7 ==> AkpRule(p)) && (p.info.kty == 5 ==> HssLmsRule(p))
  {
  }

  lemma ObjectExactly(a: Attached, info: KeyInfo)
    ensures MatchesObject(a, info) <==> ObjectFits(a, info)
  {
  }

  /** The checks behind the label loop pass exactly for keys that keep the rule of their type. */
  lemma RulesExactly(p: Parts, a: Attached)
    ensures KeyStatus(p, a).Success? <==> RuleKept(p, a)
  {
    hide RsaStatus, Ec2Status, OkpStatus, PostQuantumStatus, MatchesObject, OkpRule, Ec2Rule, RsaRule, AkpRule, HssLmsRule,
         Words, AllWords;
    WordsAre(p);
    if a == NoObject || a == RsaObject {
      RsaExactly(p, a);
    }
    Ec2Exactly(p);
    OkpExactly(p);
    PostQuantumExactly(p);
    ObjectExactly(a, p.info);
  }

  /** A key is decoded if and only if its label loop ends with its bytes, it names a type, the numbers of an
      RSA key are byte strings, it keeps the rule of its type, and the import succeeds; and then its parts
      are what the loop collected. */
  lemma DecodesExactly(s: seq<byte>, a: Attached, imported: Parts -> Status)
    ensures var k, r := KeyParts(s), DecodeKey(s, a, imported);
      && (r.Ok? <==>
            && s != [] && k.Ok? && k.next == |s| && k.value.info.kty != 0 && (k.value.info.kty == 3 ==> k.value.rsaTypes)
            && RuleKept(k.value, a) && imported(k.value).Success?)
      && (r.Ok? ==> r == k)
  {
    hide KeyParts, KeyStatus, RuleKept;
    if KeyParts(s).Ok? {
      RulesExactly(KeyParts(s).value, a);
    }
  }
}
