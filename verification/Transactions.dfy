/** Transactions: what they are, when one is well formed and authorised, and the
    exact bytes that are signed and hashed. */
module Transactions {
  import opened Prelude
  import opened Encoding
  import opened Crypto
  import opened TextBuilder

  const COINBASE: Bytes := []
  const MAX_ADDRESS_LEN := 64
  const ADDRESS_LENGTH := 16
  const PUBLIC_KEY_SIZE := 32
  const SIGNATURE_SIZE := 64
  const TX_TAG: Bytes := [116, 120, 124] // "tx|"

  datatype Transaction = Transaction(
    from: Bytes,
    to: Bytes,
    amount: int64,
    timestamp: int64,
    pubKey: Bytes,
    signature: Bytes
  ) {
    predicate IsCoinbase() {
      from == COINBASE
    }
  }

  function NewCoinbase(to: Bytes, amount: int64, timestamp: int64): Transaction {
    Transaction(COINBASE, to, amount, timestamp, [], [])
  }

  // -------------------------------------------------------------- addresses

  datatype AddressFault = EmptyAddress | AddressTooLong | UnsupportedCharacter

  predicate IsAddressChar(c: byte) {
    97 <= c <= 122 || 65 <= c <= 90 || 48 <= c <= 57 || c == 45 || c == 95
  }

  predicate IsAddress(a: Bytes) {
    0 < |a| <= MAX_ADDRESS_LEN && forall i :: 0 <= i < |a| ==> IsAddressChar(a[i])
  }

  // A byte outside ASCII decodes to a rune outside the allowed set, so checking
  // runes and checking bytes accept the same addresses.
  function CheckAddress(a: Bytes): (fault: Option<AddressFault>)
    ensures fault.None? <==> IsAddress(a)
  {
    if a == [] then Some(EmptyAddress)
    else if |a| > MAX_ADDRESS_LEN then Some(AddressTooLong)
    else if exists i :: 0 <= i < |a| && !IsAddressChar(a[i]) then Some(UnsupportedCharacter)
    else None
  }

  // The allowed bytes are the ASCII letters, digits, hyphen and underscore.
  lemma AddressAlphabet(c: byte)
    ensures
      var ch := c as char;
      IsAddressChar(c) <==> 'a' <= ch <= 'z' || 'A' <= ch <= 'Z' || '0' <= ch <= '9' || ch == '-' || ch == '_'
  {
  }

  method ValidAddress(a: Bytes) returns (fault: Option<AddressFault>)
    ensures fault == CheckAddress(a)
    ensures fault == Some(EmptyAddress) <==> a == []
    ensures fault == Some(AddressTooLong) <==> |a| > 64
    ensures fault == Some(UnsupportedCharacter) <==> 0 < |a| <= 64 && exists c :: c in a && !IsAddressChar(c)
    ensures fault == None <==> 0 < |a| <= 64 && forall c :: c in a ==> IsAddressChar(c)
  {
    if a == [] {
      return Some(EmptyAddress);
    }
    if |a| > MAX_ADDRESS_LEN {
      return Some(AddressTooLong);
    }
    for i := 0 to |a|
      invariant forall j :: 0 <= j < i ==> IsAddressChar(a[j])
    {
      if !IsAddressChar(a[i]) {
        assert a[i] in a;
        return Some(UnsupportedCharacter);
      }
    }
    return None;
  }

  // -------------------------------------------------------------- encodings

  function LenPrefixed(s: Bytes): Bytes {
    Digits(|s|) + ([COLON] + s)
  }

  function SignedFields(t: Transaction): seq<Bytes> {
    [LenPrefixed(t.from), LenPrefixed(t.to), FormatInt(t.amount), FormatInt(t.timestamp), t.pubKey]
  }

  function SigningBytes(t: Transaction): Bytes {
    TX_TAG + JoinFields(SignedFields(t))
  }

  function CanonicalBytes(t: Transaction): Bytes {
    SigningBytes(t) + [PIPE] + t.signature
  }

  function Hash(cr: Suite, t: Transaction): Digest {
    Sha256(cr, CanonicalBytes(t))
  }

  method WriteLenPrefixed(b: Builder, s: Bytes)
    modifies b
    ensures b.text == old(b.text) + LenPrefixed(s)
  {
    b.WriteString(FormatInt(|s|));
    b.WriteByte(COLON);
    b.WriteString(s);
    assert old(b.text) + Digits(|s|) + [COLON] + s == old(b.text) + (Digits(|s|) + ([COLON] + s));
  }

  method WriteSigningBytes(t: Transaction) returns (text: Bytes)
    ensures text == SigningBytes(t)
  {
    var b := new Builder();
    b.WriteString(TX_TAG);
    WriteLenPrefixed(b, t.from);
    ghost var fields := [LenPrefixed(t.from)];
    assert b.text == TX_TAG + JoinFields(fields);
    b.WriteByte(PIPE);
    WriteLenPrefixed(b, t.to);
    fields := Wrote(TX_TAG, fields, LenPrefixed(t.to));
    b.WriteByte(PIPE);
    b.WriteString(FormatInt(t.amount));
    fields := Wrote(TX_TAG, fields, FormatInt(t.amount));
    b.WriteByte(PIPE);
    b.WriteString(FormatInt(t.timestamp));
    fields := Wrote(TX_TAG, fields, FormatInt(t.timestamp));
    b.WriteByte(PIPE);
    b.WriteString(t.pubKey);
    fields := Wrote(TX_TAG, fields, t.pubKey);
    assert fields == SignedFields(t);
    return b.text;
  }

  method WriteCanonicalBytes(t: Transaction) returns (text: Bytes)
    ensures text == CanonicalBytes(t)
  {
    var signed := WriteSigningBytes(t);
    text := signed + ([PIPE] + t.signature);
  }

  // ------------------------------------------------------------- signatures

  function AddressOf(cr: Suite, pub: Bytes): Bytes {
    Hex(Sha256(cr, pub))[..ADDRESS_LENGTH]
  }

  datatype TxError =
    | AmountNotPositive
    | BadRecipient(fault: AddressFault)
    | SignedCoinbase
    | BadSender(fault: AddressFault)
    | SelfTransfer
    | Unsigned
    | BadPublicKey
    | BadSignatureEncoding
    | KeyOwnsAnotherAddress
    | SignatureMismatch

  // None is Go's nil error, here and below.
  function VerifySignature(cr: Suite, t: Transaction): Option<TxError> {
    if t.pubKey == [] || t.signature == [] then Some(Unsigned)
    else
      var pub := Unhex(t.pubKey);
      if pub.None? || |pub.value| != PUBLIC_KEY_SIZE then Some(BadPublicKey)
      else
        var sig := Unhex(t.signature);
        if sig.None? || |sig.value| != SIGNATURE_SIZE then Some(BadSignatureEncoding)
        else if AddressOf(cr, pub.value) != t.from then Some(KeyOwnsAnotherAddress)
        else if !cr.verify(pub.value, SigningBytes(t), sig.value) then Some(SignatureMismatch)
        else None
  }

  function Validate(cr: Suite, t: Transaction): Option<TxError> {
    if t.amount <= 0 then Some(AmountNotPositive)
    else if !IsAddress(t.to) then Some(BadRecipient(CheckAddress(t.to).value))
    else if t.IsCoinbase() then
      if t.pubKey != [] || t.signature != [] then Some(SignedCoinbase) else None
    else if !IsAddress(t.from) then Some(BadSender(CheckAddress(t.from).value))
    else if t.from == t.to then Some(SelfTransfer)
    else VerifySignature(cr, t)
  }

  // A key whose digest spells `owner` has signed exactly the bytes of t.
  ghost predicate SignedByOwner(cr: Suite, owner: Bytes, t: Transaction) {
    exists pub, sig ::
      && |pub| == PUBLIC_KEY_SIZE && |sig| == SIGNATURE_SIZE
      && owner == Hex(Sha256(cr, pub)[..8])
      && cr.verify(pub, SigningBytes(t), sig)
  }

  lemma ValidTransferIsSigned(cr: Suite, t: Transaction)
    requires Validate(cr, t).None? && !t.IsCoinbase()
    ensures SignedByOwner(cr, t.from, t)
  {
    var pub, sig := Unhex(t.pubKey).value, Unhex(t.signature).value;
    AddressIsDigest(cr, pub);
    assert t.from == Hex(Sha256(cr, pub)[..8]) && cr.verify(pub, SigningBytes(t), sig);
  }

  // A coinbase is refused for the first of: a bad amount, a bad recipient, any
  // trace of a signature.
  lemma CoinbaseVerdict(cr: Suite, t: Transaction)
    requires t.from == []
    ensures Validate(cr, t).None? <==> t.amount > 0 && IsAddress(t.to) && t.pubKey == [] && t.signature == []
    ensures Validate(cr, t) == Some(AmountNotPositive) <==> t.amount <= 0
    ensures Validate(cr, t) == Some(SignedCoinbase) <==>
      t.amount > 0 && IsAddress(t.to) && !(t.pubKey == [] && t.signature == [])
    ensures t.amount > 0 && !IsAddress(t.to) ==> Validate(cr, t) == Some(BadRecipient(CheckAddress(t.to).value))
  {
  }

  ghost predicate Decodes(text: Bytes, raw: Bytes, size: nat) {
    Unhex(text) == Some(raw) && |raw| == size
  }

  // A transfer is valid exactly when its amount is positive, its recipient is an
  // address other than the sender, and the 32-byte key it carries, whose digest
  // spells the sender, verifies the 64-byte signature it carries.
  lemma TransferVerdict(cr: Suite, t: Transaction)
    requires t.from != []
    ensures Validate(cr, t).None? <==>
      && t.amount > 0 && IsAddress(t.to) && t.from != t.to
      && exists pub, sig ::
           && Decodes(t.pubKey, pub, 32) && Decodes(t.signature, sig, 64)
           && t.from == Hex(Sha256(cr, pub)[..8])
           && cr.verify(pub, SigningBytes(t), sig)
  {
    if pub, sig :| Decodes(t.pubKey, pub, 32) && Decodes(t.signature, sig, 64)
                   && t.from == Hex(Sha256(cr, pub)[..8]) && cr.verify(pub, SigningBytes(t), sig) {
      AddressIsDigest(cr, pub);
      AddressOfIsAddress(cr, pub);
    }
    if Validate(cr, t).None? {
      var pub, sig := Unhex(t.pubKey).value, Unhex(t.signature).value;
      AddressIsDigest(cr, pub);
      assert Decodes(t.pubKey, pub, 32) && Decodes(t.signature, sig, 64);
    }
  }

  // What a refused transfer is refused for: the first thing wrong with it.
  lemma TransferFault(cr: Suite, t: Transaction)
    requires t.from != []
    ensures t.amount <= 0 ==> Validate(cr, t) == Some(AmountNotPositive)
    ensures t.amount > 0 && !IsAddress(t.to) ==> Validate(cr, t) == Some(BadRecipient(CheckAddress(t.to).value))
    ensures t.amount > 0 && IsAddress(t.to) ==>
      && (!IsAddress(t.from) ==> Validate(cr, t) == Some(BadSender(CheckAddress(t.from).value)))
      && (IsAddress(t.from) && t.from == t.to ==> Validate(cr, t) == Some(SelfTransfer))
      && (IsAddress(t.from) && t.from != t.to && (t.pubKey == [] || t.signature == []) ==>
            Validate(cr, t) == Some(Unsigned))
  {
  }

  // The same for a transfer that carries a key and a signature.
  lemma SignatureFault(cr: Suite, t: Transaction)
    requires t.amount > 0 && IsAddress(t.to) && IsAddress(t.from) && t.from != t.to && t.pubKey != [] && t.signature != []
    ensures (forall pub :: !Decodes(t.pubKey, pub, 32)) ==> Validate(cr, t) == Some(BadPublicKey)
    ensures forall pub :: Decodes(t.pubKey, pub, 32) ==>
      && ((forall sig :: !Decodes(t.signature, sig, 64)) ==> Validate(cr, t) == Some(BadSignatureEncoding))
      && forall sig :: Decodes(t.signature, sig, 64) ==>
           if t.from != Hex(Sha256(cr, pub)[..8]) then Validate(cr, t) == Some(KeyOwnsAnotherAddress)
           else if !cr.verify(pub, SigningBytes(t), sig) then Validate(cr, t) == Some(SignatureMismatch)
           else Validate(cr, t) == None
  {
    if Unhex(t.pubKey).Some? && |Unhex(t.pubKey).value| == 32 {
      var pub := Unhex(t.pubKey).value;
      AddressIsDigest(cr, pub);
      assert Decodes(t.pubKey, pub, 32);
      if Unhex(t.signature).Some? && |Unhex(t.signature).value| == 64 {
        assert Decodes(t.signature, Unhex(t.signature).value, 64);
      }
    }
  }

  // Whatever passes Validate carries a key without the field separator.
  lemma ValidPubKeyHasNoSeparator(cr: Suite, t: Transaction)
    requires Validate(cr, t).None?
    ensures PIPE !in t.pubKey
  {
  }

  datatype KeyPair = KeyPair(privateKey: Bytes, publicKey: Bytes) {
    function Address(cr: Suite): Bytes {
      AddressOf(cr, publicKey)
    }

    function Sign(cr: Suite, t: Transaction): Transaction {
      var signed := t.(from := Address(cr), pubKey := Hex(publicKey));
      signed.(signature := Hex(cr.sign(privateKey, SigningBytes(signed))))
    }

    // Section 5.1 of RFC 8032: sizes, and what a key signs verifies under it.
    ghost predicate Sound(cr: Suite) {
      && |publicKey| == PUBLIC_KEY_SIZE
      && (forall m :: |cr.sign(privateKey, m)| == SIGNATURE_SIZE)
      && (forall m :: cr.verify(publicKey, m, cr.sign(privateKey, m)))
    }
  }

  lemma AddressOfIsAddress(cr: Suite, pub: Bytes)
    ensures IsAddress(AddressOf(cr, pub)) && |AddressOf(cr, pub)| == ADDRESS_LENGTH
  {
    var h := Hex(Sha256(cr, pub));
    forall i | 0 <= i < ADDRESS_LENGTH ensures IsAddressChar(h[..ADDRESS_LENGTH][i]) {
      assert IsLowerHex(h[i]);
    }
  }

  // An address is the first 8 bytes of the digest of its key, in hexadecimal.
  lemma AddressIsDigest(cr: Suite, pub: Bytes)
    ensures AddressOf(cr, pub) == Hex(Sha256(cr, pub)[..8])
    ensures Unhex(AddressOf(cr, pub)) == Some(Sha256(cr, pub)[..8])
  {
    HexPrefix(Sha256(cr, pub), 8);
    UnhexHex(Sha256(cr, pub)[..8]);
  }

  // Two keys share an address exactly when those 8 bytes agree.
  lemma AddressesAgree(cr: Suite, p: Bytes, q: Bytes)
    ensures AddressOf(cr, p) == AddressOf(cr, q) <==> Sha256(cr, p)[..8] == Sha256(cr, q)[..8]
  {
    AddressIsDigest(cr, p);
    AddressIsDigest(cr, q);
  }

  // Signing is exactly enough: a signed transfer is accepted unless its amount
  // or its recipient is at fault, whatever From it started with. It stays the
  // same payment, made out in the name of the key.
  lemma SignedTransferValid(cr: Suite, k: KeyPair, t: Transaction)
    requires k.Sound(cr)
    ensures Validate(cr, k.Sign(cr, t)).None?
       <==> t.amount > 0 && IsAddress(t.to) && t.to != k.Address(cr)
    ensures var s := k.Sign(cr, t);
      && s.to == t.to && s.amount == t.amount && s.timestamp == t.timestamp
      && s.from == Hex(Sha256(cr, k.publicKey)[..8]) && Unhex(s.pubKey) == Some(k.publicKey)
      && Unhex(s.signature) == Some(cr.sign(k.privateKey, SigningBytes(s)))
  {
    var s := k.Sign(cr, t);
    var unsigned := t.(from := k.Address(cr), pubKey := Hex(k.publicKey));
    var sig := cr.sign(k.privateKey, SigningBytes(unsigned));
    assert SigningBytes(s) == SigningBytes(unsigned);
    UnhexHex(k.publicKey);
    UnhexHex(sig);
    AddressIsDigest(cr, k.publicKey);
    AddressOfIsAddress(cr, k.publicKey);
    assert VerifySignature(cr, s).None?;
  }
}
