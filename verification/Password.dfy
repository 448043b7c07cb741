/** Server passwords: `iPSK1:...:iPSKn:uPSK` for the methods with extensible identity headers. */
module Password {
  import opened Bytes
  import opened Text

  datatype Method =
    | NoCipher
    | Table
    | Aead2022Aes128
    | Aead2022Aes256
    | Aead2022ChaCha
    | Derived(keyLen: nat)  // stream and AEAD methods, whose key is derived from the password

  function KeyLen(m: Method): nat {
    match m
    case NoCipher => 0
    case Table => 0
    case Aead2022Aes128 => 16
    case Aead2022Aes256 => 32
    case Aead2022ChaCha => 32
    case Derived(n) => n
  }

  predicate SupportsEih(m: Method) {
    m.Aead2022Aes128? || m.Aead2022Aes256?
  }

  predicate IsAead2022(m: Method) {
    SupportsEih(m) || m.Aead2022ChaCha?
  }

  datatype Error =
    | InvalidKeyEncoding
    | InvalidKeyLength(expected: nat, got: nat)
    | InvalidUserKeyEncoding
    | InvalidUserKeyLength(expected: nat, got: nat)

  datatype Result<+T> = Ok(value: T) | Err(error: Error)

  /** The stored form of a password: the user key as written, as bytes, and the identity keys. */
  datatype Keys = Keys(password: string, encKey: seq<byte>, identityKeys: seq<seq<byte>>)

  /** Base64 and the key derivation of the older methods, as the libraries provide them. */
  datatype Lib = Lib(
    encode: seq<byte> -> string,
    decode: string -> Option<seq<byte>>,
    utf8: string -> seq<byte>,
    derive: (string, nat) -> seq<byte>
  )

  /** What is used of Base64: it round trips, and the colon is not in its alphabet. */
  ghost predicate Lawful(lib: Lib) {
    && (forall k: seq<byte> :: lib.decode(lib.encode(k)) == Some(k) && ':' !in lib.encode(k))
    && (forall s: string :: ':' in s ==> lib.decode(s).None?)
  }

  function DerivedKey(lib: Lib, m: Method, password: string): Result<seq<byte>> {
    if IsAead2022(m) then
      match lib.decode(password)
      case None => Err(InvalidKeyEncoding)
      case Some(v) => if |v| != KeyLen(m) then Err(InvalidKeyLength(KeyLen(m), |v|)) else Ok(v)
    else Ok(lib.derive(password, KeyLen(m)))
  }

  function IdentityKey(lib: Lib, m: Method, ipsk: string): Result<seq<byte>> {
    match lib.decode(ipsk)
    case None => Err(InvalidUserKeyEncoding)
    case Some(v) => if |v| != KeyLen(m) then Err(InvalidUserKeyLength(KeyLen(m), |v|)) else Ok(v)
  }

  /** All pieces decoded in the given order, or the first error. */
  function IdentityKeys(lib: Lib, m: Method, parts: seq<string>): (r: Result<seq<seq<byte>>>)
    ensures r.Ok? ==> |r.value| == |parts|
  {
    if parts == [] then Ok([])
    else
      match IdentityKey(lib, m, parts[0])
      case Err(e) => Err(e)
      case Ok(v) =>
        match IdentityKeys(lib, m, parts[1..])
        case Err(e) => Err(e)
        case Ok(vs) => Ok([v] + vs)
  }

  function ParseEih(lib: Lib, m: Method, password: string): Result<Keys> {
    var parts := RSplit(password, ':');
    match DerivedKey(lib, m, parts[0])
    case Err(e) => Err(e)
    case Ok(key) =>
      match IdentityKeys(lib, m, parts[1..])
      case Err(e) => Err(e)
      case Ok(vs) => Ok(Keys(parts[0], key, Reverse(vs)))
  }

  function Parse(lib: Lib, m: Method, password: string): Result<Keys> {
    if m.NoCipher? then Ok(Keys(password, [], []))
    else if m.Table? then Ok(Keys(password, lib.utf8(password), []))
    else if SupportsEih(m) then ParseEih(lib, m, password)
    else
      match DerivedKey(lib, m, password)
      case Err(e) => Err(e)
      case Ok(key) => Ok(Keys(password, key, []))
  }

  function Encoded(lib: Lib, keys: seq<seq<byte>>): (r: seq<string>)
    ensures |r| == |keys|
  {
    seq(|keys|, i requires 0 <= i < |keys| => lib.encode(keys[i]))
  }

  function Export(lib: Lib, k: Keys): string {
    if k.identityKeys == [] then k.password
    else Join(Encoded(lib, k.identityKeys) + [k.password], ':')
  }

  /** What a configuration of an EIH method can hold. */
  ghost predicate Fits(lib: Lib, m: Method, k: Keys) {
    && ':' !in k.password
    && lib.decode(k.password) == Some(k.encKey) && |k.encKey| == KeyLen(m)
    && forall i :: 0 <= i < |k.identityKeys| ==> |k.identityKeys[i]| == KeyLen(m)
  }

  lemma {:induction false} IdentityKeysDecoded(lib: Lib, m: Method, parts: seq<string>, i: nat)
    requires IdentityKeys(lib, m, parts).Ok? && i < |parts|
    ensures |IdentityKeys(lib, m, parts).value[i]| == KeyLen(m)
  {
    if i > 0 {
      IdentityKeysDecoded(lib, m, parts[1..], i - 1);
    }
  }

  lemma {:induction false} IdentityKeysEncoded(lib: Lib, m: Method, keys: seq<seq<byte>>)
    requires Lawful(lib)
    requires forall i :: 0 <= i < |keys| ==> |keys[i]| == KeyLen(m)
    ensures IdentityKeys(lib, m, Encoded(lib, keys)) == Ok(keys)
  {
    if keys != [] {
      IdentityKeysEncoded(lib, m, keys[1..]);
      assert Encoded(lib, keys)[1..] == Encoded(lib, keys[1..]);
      assert keys == [keys[0]] + keys[1..];
    }
  }

  lemma ParsedFits(lib: Lib, m: Method, password: string)
    requires SupportsEih(m) && Parse(lib, m, password).Ok?
    ensures Fits(lib, m, Parse(lib, m, password).value)
  {
    var parts := RSplit(password, ':');
    RSplitParts(password, ':', 0);
    var vs := IdentityKeys(lib, m, parts[1..]).value;
    forall i | 0 <= i < |vs|
      ensures |vs[i]| == KeyLen(m)
    {
      IdentityKeysDecoded(lib, m, parts[1..], i);
    }
  }

  lemma ExportSplits(lib: Lib, k: Keys)
    requires Lawful(lib) && ':' !in k.password
    ensures RSplit(Export(lib, k), ':') == [k.password] + Encoded(lib, Reverse(k.identityKeys))
  {
    if k.identityKeys == [] {
      RSplitPlain(k.password, ':');
    } else {
      var parts := Encoded(lib, k.identityKeys) + [k.password];
      JoinIsRJoin(parts, ':');
      RSplitRJoin(Reverse(parts), ':');
      assert Reverse(parts) == [k.password] + Encoded(lib, Reverse(k.identityKeys));
    }
  }

  /** Keys that fit an EIH method are read back from their exported form, identity keys in
      the same order. */
  lemma FittingKeysRoundTrip(lib: Lib, m: Method, k: Keys)
    requires Lawful(lib) && SupportsEih(m) && Fits(lib, m, k)
    ensures Parse(lib, m, Export(lib, k)) == Ok(k)
  {
    ExportSplits(lib, k);
    IdentityKeysEncoded(lib, m, Reverse(k.identityKeys));
    assert Reverse(Reverse(k.identityKeys)) == k.identityKeys;
    assert ([k.password] + Encoded(lib, Reverse(k.identityKeys)))[1..] == Encoded(lib, Reverse(k.identityKeys));
  }

  /** For every method and accepted password, the exported password parses to the same user
      key, the same bytes and the same identity keys. */
  lemma ExportRoundTrip(lib: Lib, m: Method, password: string)
    requires Lawful(lib) && Parse(lib, m, password).Ok?
    ensures Parse(lib, m, Export(lib, Parse(lib, m, password).value)) == Parse(lib, m, password)
  {
    if SupportsEih(m) {
      ParsedFits(lib, m, password);
      FittingKeysRoundTrip(lib, m, Parse(lib, m, password).value);
    }
  }

  // ----- What a password means

  /** The pieces of a password with identity keys, in the order they are written. */
  function Written(ids: seq<string>, user: string): string {
    Join(ids + [user], ':')
  }

  lemma WrittenSplits(ids: seq<string>, user: string)
    requires ':' !in user && forall i :: 0 <= i < |ids| ==> ':' !in ids[i]
    ensures RSplit(Written(ids, user), ':') == [user] + Reverse(ids)
  {
    hide Join, RSplit, RJoin;
    var parts := ids + [user];
    JoinIsRJoin(parts, ':');
    RSplitRJoin(Reverse(parts), ':');
    assert Reverse(parts) == [user] + Reverse(ids);
  }

  /** The key that one piece stands for. */
  ghost predicate Stands(lib: Lib, m: Method, text: string, key: seq<byte>) {
    lib.decode(text) == Some(key) && |key| == KeyLen(m)
  }

  lemma {:induction false} IdentityKeysIff(lib: Lib, m: Method, parts: seq<string>, vs: seq<seq<byte>>)
    ensures IdentityKeys(lib, m, parts) == Ok(vs)
       <==> |vs| == |parts| && forall i :: 0 <= i < |parts| ==> Stands(lib, m, parts[i], vs[i])
  {
    if parts != [] {
      if vs != [] {
        IdentityKeysIff(lib, m, parts[1..], vs[1..]);
        assert vs == [vs[0]] + vs[1..];
        assert forall i :: 1 <= i < |parts| ==> parts[i] == parts[1..][i - 1];
        assert forall i :: 1 <= i < |vs| ==> vs[i] == vs[1..][i - 1];
        if IdentityKeys(lib, m, parts) == Ok(vs) {
          assert IdentityKeys(lib, m, parts[1..]) == Ok(vs[1..]);
        }
      }
    }
  }

  /** With identity headers, a password is accepted exactly when every piece is the Base64 form of
      a key of the method's length; the last piece is the user's, the others the identity keys in
      the order written. */
  lemma AcceptedIff(lib: Lib, m: Method, ids: seq<string>, user: string, k: Keys)
    requires SupportsEih(m) && ':' !in user && forall i :: 0 <= i < |ids| ==> ':' !in ids[i]
    ensures Parse(lib, m, Written(ids, user)) == Ok(k)
       <==> && k.password == user && Stands(lib, m, user, k.encKey)
            && |k.identityKeys| == |ids|
            && forall i :: 0 <= i < |ids| ==> Stands(lib, m, ids[i], k.identityKeys[i])
  {
    hide IdentityKeys, Stands, Join, RSplit, DerivedKey;
    WrittenSplits(ids, user);
    var parts := [user] + Reverse(ids);
    assert parts[1..] == Reverse(ids);
    UserStands(lib, m, user, k.encKey);
    IdentitiesIff(lib, m, ids, k.identityKeys);
    assert Reverse(Reverse(k.identityKeys)) == k.identityKeys;
    if IdentityKeys(lib, m, Reverse(ids)).Ok? {
      var vs := IdentityKeys(lib, m, Reverse(ids)).value;
      assert Reverse(Reverse(vs)) == vs;
    }
  }

  lemma IdentitiesIff(lib: Lib, m: Method, ids: seq<string>, vs: seq<seq<byte>>)
    ensures IdentityKeys(lib, m, Reverse(ids)) == Ok(Reverse(vs))
       <==> |vs| == |ids| && forall i :: 0 <= i < |ids| ==> Stands(lib, m, ids[i], vs[i])
  {
    hide IdentityKeys, Stands;
    IdentityKeysIff(lib, m, Reverse(ids), Reverse(vs));
    if |vs| == |ids| {
      ReversedAlike(lib, m, ids, vs);
    }
  }

  lemma UserStands(lib: Lib, m: Method, user: string, key: seq<byte>)
    requires SupportsEih(m)
    ensures DerivedKey(lib, m, user) == Ok(key) <==> Stands(lib, m, user, key)
  {
  }

  lemma ReversedAlike(lib: Lib, m: Method, ids: seq<string>, vs: seq<seq<byte>>)
    requires |ids| == |vs|
    ensures (forall i :: 0 <= i < |ids| ==> Stands(lib, m, Reverse(ids)[i], Reverse(vs)[i]))
       <==> (forall i :: 0 <= i < |ids| ==> Stands(lib, m, ids[i], vs[i]))
  {
    hide Stands;
    var n := |ids|;
    if forall i :: 0 <= i < n ==> Stands(lib, m, Reverse(ids)[i], Reverse(vs)[i]) {
      forall i | 0 <= i < n
        ensures Stands(lib, m, ids[i], vs[i])
      {
        assert Stands(lib, m, Reverse(ids)[n - 1 - i], Reverse(vs)[n - 1 - i]);
      }
    }
  }

  /** A piece that stands for no key: what is wrong with it, as user key and as identity key. */
  function UserFault(lib: Lib, m: Method, text: string): Option<Error> {
    match lib.decode(text)
    case None => Some(InvalidKeyEncoding)
    case Some(v) => if |v| == KeyLen(m) then None else Some(InvalidKeyLength(KeyLen(m), |v|))
  }

  function IdentityFault(lib: Lib, m: Method, text: string): Option<Error> {
    match lib.decode(text)
    case None => Some(InvalidUserKeyEncoding)
    case Some(v) => if |v| == KeyLen(m) then None else Some(InvalidUserKeyLength(KeyLen(m), |v|))
  }

  lemma {:induction false} FirstFaultDecides(lib: Lib, m: Method, parts: seq<string>, i: nat)
    requires i < |parts| && IdentityFault(lib, m, parts[i]).Some?
    requires forall j :: 0 <= j < i ==> IdentityFault(lib, m, parts[j]).None?
    ensures IdentityKeys(lib, m, parts) == Err(IdentityFault(lib, m, parts[i]).value)
  {
    if i > 0 {
      assert IdentityFault(lib, m, parts[0]).None?;
      FirstFaultDecides(lib, m, parts[1..], i - 1);
    }
  }

  /** A refused password is refused for its user key, or else for the last identity key that is
      wrong. */
  lemma LastFaultDecides(lib: Lib, m: Method, ids: seq<string>, user: string, i: nat)
    requires SupportsEih(m) && ':' !in user && forall i :: 0 <= i < |ids| ==> ':' !in ids[i]
    requires i < |ids| && IdentityFault(lib, m, ids[i]).Some?
    requires forall j :: i < j < |ids| ==> IdentityFault(lib, m, ids[j]).None?
    ensures Parse(lib, m, Written(ids, user))
         == Err(if UserFault(lib, m, user).Some? then UserFault(lib, m, user).value
                else IdentityFault(lib, m, ids[i]).value)
  {
    hide IdentityKeys, Join, RSplit, IdentityFault;
    WrittenSplits(ids, user);
    var parts, n := [user] + Reverse(ids), |ids|;
    assert parts[1..] == Reverse(ids);
    assert forall j :: 0 <= j < n ==> Reverse(ids)[j] == ids[n - 1 - j];
    FirstFaultDecides(lib, m, Reverse(ids), n - 1 - i);
  }

  /** Without identity headers the whole password, colons included, is the user key: the Base64
      form of a key of the right length under ChaCha, the source of a derived key under the older
      methods, the key itself for the table method, unused without a cipher. */
  lemma PlainPasswords(lib: Lib, m: Method, password: string, k: Keys)
    requires !SupportsEih(m)
    ensures Parse(lib, m, password) == Ok(k)
       <==> && k.password == password && k.identityKeys == []
            && (m.Aead2022ChaCha? ==> Stands(lib, m, password, k.encKey))
            && (m.Derived? ==> k.encKey == lib.derive(password, m.keyLen))
            && (m.Table? ==> k.encKey == lib.utf8(password))
            && (m.NoCipher? ==> k.encKey == [])
  {
  }

  // ----- Keys under another method

  lemma RefusedOnlyByAead2022(lib: Lib, m: Method, password: string)
    requires Parse(lib, m, password).Err?
    ensures IsAead2022(m)
  {
  }

  /** What an AEAD-2022 method can read back from the exported form, as a condition on the keys. */
  ghost predicate Readable(lib: Lib, m: Method, k: Keys) {
    && lib.decode(k.password) == Some(k.encKey) && |k.encKey| == KeyLen(m)
    && (k.identityKeys == [] || SupportsEih(m))
    && forall i :: 0 <= i < |k.identityKeys| ==> |k.identityKeys[i]| == KeyLen(m)
  }

  lemma ExportHasColon(lib: Lib, k: Keys)
    requires k.identityKeys != []
    ensures ':' in Export(lib, k)
  {
    var parts := Encoded(lib, k.identityKeys) + [k.password];
    assert Export(lib, k)[|parts[0]|] == ':';
  }

  lemma ReadBackIffReadable(lib: Lib, m: Method, k: Keys)
    requires Lawful(lib) && IsAead2022(m)
    ensures Parse(lib, m, Export(lib, k)) == Ok(k) <==> Readable(lib, m, k)
  {
    if SupportsEih(m) {
      if Parse(lib, m, Export(lib, k)) == Ok(k) {
        ParsedFits(lib, m, Export(lib, k));
      }
      if Readable(lib, m, k) {
        FittingKeysRoundTrip(lib, m, k);
      }
    } else if k.identityKeys != [] {
      ExportHasColon(lib, k);
    }
  }

  /** Keys that one AEAD-2022 method reads back are read back by another exactly when the key
      lengths are equal and the other has identity headers if there are identity keys. */
  lemma ReadBackByOtherIff(lib: Lib, m: Method, other: Method, k: Keys)
    requires Lawful(lib) && IsAead2022(m) && IsAead2022(other) && Parse(lib, m, Export(lib, k)) == Ok(k)
    ensures Parse(lib, other, Export(lib, k)) == Ok(k) <==>
              KeyLen(other) == KeyLen(m) && (k.identityKeys == [] || SupportsEih(other))
  {
    hide Parse, Export;
    ReadBackIffReadable(lib, m, k);
    ReadBackIffReadable(lib, other, k);
  }

  /** Under the older methods there are no identity keys to carry over. */
  lemma OlderMethodsHaveNoIdentityKeys(lib: Lib, m: Method, k: Keys)
    requires !IsAead2022(m) && Parse(lib, m, Export(lib, k)) == Ok(k)
    ensures k.identityKeys == []
  {
  }

  /** The encoding of an empty key is refused by every AEAD-2022 method. */
  lemma EmptyKeyIsRefused(lib: Lib, m: Method)
    requires Lawful(lib) && IsAead2022(m)
    ensures Parse(lib, m, lib.encode([])) == Err(InvalidKeyLength(KeyLen(m), 0))
  {
    RSplitPlain(lib.encode([]), ':');
  }

  /** Refused switches to the ChaCha method: a shorter key is no longer readable, an equal
      length is, and with an identity key it is not. Coming from an older method, a password that
      happens to be the encoding of a key is no longer readable either, unless the older method
      derived that very key from it. */
  lemma RefusedSwitches(lib: Lib, short: seq<byte>, long: seq<byte>, id: seq<byte>)
    requires Lawful(lib) && |short| == 16 && |long| == |id| == 32
    ensures var one, two, three :=
              Keys(lib.encode(short), short, []), Keys(lib.encode(long), long, []), Keys(lib.encode(long), long, [id]);
            && Parse(lib, Aead2022ChaCha, lib.encode([])).Err?
            && Parse(lib, Aead2022Aes128, Export(lib, one)) == Ok(one)
            && Parse(lib, Aead2022ChaCha, Export(lib, one)) == Err(InvalidKeyLength(32, 16))
            && Parse(lib, Aead2022Aes256, Export(lib, two)) == Ok(two)
            && Parse(lib, Aead2022ChaCha, Export(lib, two)) == Ok(two)
            && Parse(lib, Aead2022Aes256, Export(lib, three)) == Ok(three)
            && Parse(lib, Aead2022ChaCha, Export(lib, three)) == Err(InvalidKeyEncoding)
            && var older := Keys(lib.encode(long), lib.derive(lib.encode(long), 32), []);
               && Parse(lib, Derived(32), Export(lib, older)) == Ok(older)
               && (Parse(lib, Aead2022ChaCha, Export(lib, older)) == Ok(older) <==> older.encKey == long)
  {
    EmptyKeyIsRefused(lib, Aead2022ChaCha);
    ReadBackIffReadable(lib, Aead2022Aes128, Keys(lib.encode(short), short, []));
    ReadBackIffReadable(lib, Aead2022Aes256, Keys(lib.encode(long), long, []));
    ReadBackIffReadable(lib, Aead2022Aes256, Keys(lib.encode(long), long, [id]));
    ExportHasColon(lib, Keys(lib.encode(long), long, [id]));
    ReadBackIffReadable(lib, Aead2022ChaCha, Keys(lib.encode(long), lib.derive(lib.encode(long), 32), []));
  }

  // ----- The parser's loop, and the configuration it fills

  function After(done: seq<seq<byte>>, rest: Result<seq<seq<byte>>>): Result<seq<seq<byte>>> {
    match rest
    case Err(e) => Err(e)
    case Ok(vs) => Ok(done + vs)
  }

  lemma AfterNone(rest: Result<seq<seq<byte>>>)
    ensures After([], rest) == rest
  {
    if rest.Ok? {
      assert [] + rest.value == rest.value;
    }
  }

  lemma AfterOneMore(lib: Lib, m: Method, done: seq<seq<byte>>, parts: seq<string>)
    requires parts != []
    ensures IdentityKey(lib, m, parts[0]).Err? ==>
              After(done, IdentityKeys(lib, m, parts)) == Err(IdentityKey(lib, m, parts[0]).error)
    ensures IdentityKey(lib, m, parts[0]).Ok? ==>
              After(done, IdentityKeys(lib, m, parts))
              == After(done + [IdentityKey(lib, m, parts[0]).value], IdentityKeys(lib, m, parts[1..]))
  {
    hide IdentityKey;
    var head, tail := IdentityKey(lib, m, parts[0]), IdentityKeys(lib, m, parts[1..]);
    if head.Ok? && tail.Ok? {
      AppendOne(done, head.value, tail.value);
    }
  }

  lemma AppendOne<T>(s: seq<T>, x: T, t: seq<T>)
    ensures s + ([x] + t) == s + [x] + t
  {
  }

  method PasswordToKeys(lib: Lib, m: Method, password: string) returns (r: Result<Keys>)
    ensures r == Parse(lib, m, password)
  {
    if m.NoCipher? {
      return Ok(Keys(password, [], []));
    }
    if m.Table? {
      return Ok(Keys(password, lib.utf8(password), []));
    }
    if !SupportsEih(m) {
      match DerivedKey(lib, m, password) {
        case Err(e) => return Err(e);
        case Ok(key) => return Ok(Keys(password, key, []));
      }
    }
    var parts := RSplit(password, ':');
    var upsk := parts[0];
    var derived := DerivedKey(lib, m, upsk);
    if derived.Err? {
      return Err(derived.error);
    }
    var identityKeys: seq<seq<byte>> := [];
    AfterNone(IdentityKeys(lib, m, parts[1..]));
    for i := 1 to |parts|
      invariant |identityKeys| == i - 1
      invariant IdentityKeys(lib, m, parts[1..]) == After(identityKeys, IdentityKeys(lib, m, parts[i..]))
    {
      assert parts[i..][1..] == parts[i + 1..];
      AfterOneMore(lib, m, identityKeys, parts[i..]);
      var v := IdentityKey(lib, m, parts[i]);
      if v.Err? {
        return Err(v.error);
      }
      identityKeys := identityKeys + [v.value];
    }
    assert parts[|parts|..] == [] && identityKeys + [] == identityKeys;
    return Ok(Keys(upsk, derived.value, Reverse(identityKeys)));
  }

  class ServerConfig {
    var cipher: Method
    var keys: Keys

    /** What `ServerConfig::new` establishes: the keys are those of the exported password. */
    ghost predicate Consistent(lib: Lib)
      reads this
    {
      Parse(lib, cipher, Export(lib, keys)) == Ok(keys)
    }

    constructor (lib: Lib, m: Method, accepted: Keys)
      requires Parse(lib, m, Export(lib, accepted)) == Ok(accepted)
      ensures Consistent(lib) && cipher == m && keys == accepted
    {
      cipher, keys := m, accepted;
    }

    /** The method is replaced before the password is parsed, so a refused password leaves the
        old keys under the new method. */
    method SetMethod(lib: Lib, m: Method, password: string) returns (r: Result<()>)
      requires Lawful(lib) && Consistent(lib)
      modifies this
      ensures r.Ok? <==> Parse(lib, m, password).Ok?
      ensures cipher == m
      ensures r.Ok? ==> Ok(keys) == Parse(lib, m, password) && Consistent(lib)
      ensures r.Err? ==> IsAead2022(m) && keys == old(keys)
      ensures r.Err? && IsAead2022(old(cipher)) ==>
                (Consistent(lib) <==>
                  KeyLen(m) == KeyLen(old(cipher)) && (old(keys).identityKeys == [] || SupportsEih(m)))
      ensures r.Err? && !IsAead2022(old(cipher)) ==>
                (Consistent(lib) <==>
                  lib.decode(old(keys).password) == Some(old(keys).encKey) && |old(keys).encKey| == KeyLen(m))
    {
      hide Parse, Export;
      cipher := m;
      var parsed := PasswordToKeys(lib, m, password);
      match parsed {
        case Err(e) =>
          RefusedOnlyByAead2022(lib, m, password);
          ReadBackIffReadable(lib, m, keys);
          if IsAead2022(old(cipher)) {
            ReadBackByOtherIff(lib, old(cipher), m, keys);
          } else {
            OlderMethodsHaveNoIdentityKeys(lib, old(cipher), keys);
          }
          r := Err(e);
        case Ok(k) =>
          ExportRoundTrip(lib, m, password);
          keys := k;
          r := Ok(());
      }
    }
  }
}
