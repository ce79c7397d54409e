/**
 Signing secrets of the audit chain and their rotation. The keyed hash itself is a parameter.
 */
module HashKeys {
  import opened Wrappers
  import opened Texts

  /** HMAC-SHA-256 in hexadecimal: from a secret and a text to a digest. */
  type Hmac = (Text, Text) -> Text

  /** `AUDIT_HASH_PREVIOUS_SECRETS`: absent or a JSON object, or a text that is not one. */
  datatype Retired = Secrets(byId: map<Text, Text>) | Malformed

  datatype HashConfig = HashConfig(keyId: Option<Text>, secret: Option<Text>, retired: Retired)

  datatype HashError = SecretNotConfigured | UnknownKeyId | MalformedRetiredSecrets

  /** "v1" */
  const DEFAULT_KEY_ID: Text := [0x76, 0x31]

  function ActiveKeyId(c: HashConfig): Text {
    if c.keyId.Some? then c.keyId.value else DEFAULT_KEY_ID
  }

  /** An empty retired secret is treated as a missing one. */
  function SecretForKey(c: HashConfig, id: Text): Result<Text, HashError> {
    if id == ActiveKeyId(c) then
      if c.secret.Some? then Success(c.secret.value) else Failure(SecretNotConfigured)
    else if c.retired.Malformed? then Failure(MalformedRetiredSecrets)
    else if id !in c.retired.byId || c.retired.byId[id] == [] then Failure(UnknownKeyId)
    else Success(c.retired.byId[id])
  }

  function HmacWithKey(hmac: Hmac, c: HashConfig, data: Text, id: Text): Result<Text, HashError> {
    match SecretForKey(c, id)
    case Failure(e) => Failure(e)
    case Success(secret) => Success(hmac(secret, data))
  }

  /** The operator's rotation: a new id and secret, the outgoing secret moved among the retired ones. */
  function Rotate(c: HashConfig, id: Text, secret: Text): HashConfig
    requires CanRotate(c, id)
  {
    HashConfig(Some(id), Some(secret), Secrets(c.retired.byId[ActiveKeyId(c) := c.secret.value]))
  }

  /** Every id stands for one secret only, and the outgoing secret is a real one. */
  predicate CanRotate(c: HashConfig, id: Text) {
    && c.secret.Some? && c.secret.value != []
    && c.retired.Secrets?
    && id != ActiveKeyId(c) && id !in c.retired.byId
  }

  function RotateAll(c: HashConfig, keys: seq<(Text, Text)>): Option<HashConfig> {
    if keys == [] then Some(c)
    else
      match RotateAll(c, keys[..|keys| - 1])
      case None => None
      case Some(d) =>
        var (id, secret) := keys[|keys| - 1];
        if CanRotate(d, id) then Some(Rotate(d, id, secret)) else None
  }

  /** The id that signs: the configured one, or v1 */
  lemma ActiveKeyExactly(c: HashConfig)
    ensures c.keyId == None ==> ActiveKeyId(c) == Ascii("v1")
    ensures c.keyId != None ==> c.keyId == Some(ActiveKeyId(c))
  {
  }

  /** Which ids sign, with which secret: the active one needs its own, any other a retired one that is not empty. */
  lemma SecretExactly(c: HashConfig, id: Text, secret: Text)
    ensures SecretForKey(c, id) == Success(secret) <==>
              if id == ActiveKeyId(c) then c.secret == Some(secret)
              else c.retired != Malformed && id in c.retired.byId && c.retired.byId[id] == secret && secret != []
    ensures SecretForKey(c, id) == Failure(SecretNotConfigured) <==> id == ActiveKeyId(c) && c.secret == None
    ensures SecretForKey(c, id) == Failure(MalformedRetiredSecrets) <==> id != ActiveKeyId(c) && c.retired == Malformed
  {
  }

  /** A rotation adds one key and changes what no other key id resolves to. */
  lemma RotationAddsOneKey(c: HashConfig, id: Text, secret: Text, other: Text)
    requires CanRotate(c, id)
    ensures SecretForKey(Rotate(c, id, secret), id) == Success(secret)
    ensures other != id ==> SecretForKey(Rotate(c, id, secret), other) == SecretForKey(c, other)
    ensures ActiveKeyId(Rotate(c, id, secret)) == id
    ensures RotateAll(c, [(id, secret)]) == Some(Rotate(c, id, secret))
  {
    assert [(id, secret)][..0] == [];
  }

  /** After any number of rotations a key id that resolved still resolves to the same secret. */
  lemma {:induction false} RotationsKeepSecrets(c: HashConfig, keys: seq<(Text, Text)>, id: Text)
    requires RotateAll(c, keys).Some? && SecretForKey(c, id).Success?
    ensures SecretForKey(RotateAll(c, keys).value, id) == SecretForKey(c, id)
  {
    if keys != [] {
      var n := |keys| - 1;
      RotationsKeepSecrets(c, keys[..n], id);
      RotationAddsOneKey(RotateAll(c, keys[..n]).value, keys[n].0, keys[n].1, id);
    }
  }

  /** An id that neither the configuration nor a rotation introduced never signs anything. */
  lemma {:induction false} UnknownIdAlwaysErrs(hmac: Hmac, c: HashConfig, keys: seq<(Text, Text)>, id: Text, data: Text)
    requires RotateAll(c, keys).Some? && SecretForKey(c, id).Failure?
    requires forall k | 0 <= k < |keys| :: keys[k].0 != id
    ensures HmacWithKey(hmac, RotateAll(c, keys).value, data, id).Failure?
  {
    if keys != [] {
      var n := |keys| - 1;
      UnknownIdAlwaysErrs(hmac, c, keys[..n], id, data);
      RotationAddsOneKey(RotateAll(c, keys[..n]).value, keys[n].0, keys[n].1, id);
    }
  }
}
