/** Reading the two hashed encodings back. Neither decoder exists in the program;
    each is here to show that its encoding loses nothing.
 */
module Codec {
  import opened Prelude
  import opened Encoding
  import opened Transactions
  import opened Blocks

  function ParseUint64(s: Bytes): Option<uint64> {
    var v :- ParseNat(s);
    if v < TWO_64 then Some(v as uint64) else None
  }

  function ParseInt64(s: Bytes): Option<int64> {
    var v :- ParseInt(s);
    if MIN_INT64 <= v <= MAX_INT64 then Some(v as int64) else None
  }

  // <len>:<bytes> at the front of s, and what follows.
  function TakeLenPrefixed(s: Bytes): Option<(Bytes, Bytes)> {
    var (digits, rest) :- Cut(s, COLON);
    var n :- ParseNat(digits);
    if n <= |rest| then Some((rest[..n], rest[n..])) else None
  }

  function SkipSeparator(s: Bytes): Option<Bytes> {
    if s != [] && s[0] == PIPE then Some(s[1..]) else None
  }

  // A signed decimal field and the text after its separator.
  function TakeInt64(s: Bytes): Option<(int64, Bytes)> {
    var (text, rest) :- Cut(s, PIPE);
    var v :- ParseInt64(text);
    Some((v, rest))
  }

  function TakeUint64(s: Bytes): Option<(uint64, Bytes)> {
    var (text, rest) :- Cut(s, PIPE);
    var v :- ParseUint64(text);
    Some((v, rest))
  }

  function TakeAddress(s: Bytes): Option<(Bytes, Bytes)> {
    var (a, rest) :- TakeLenPrefixed(s);
    var next :- SkipSeparator(rest);
    Some((a, next))
  }

  function DecodeTransaction(s: Bytes): Option<Transaction> {
    if TX_TAG <= s then
      var (from, s1) :- TakeAddress(s[|TX_TAG|..]);
      var (to, s2) :- TakeAddress(s1);
      var (amount, s3) :- TakeInt64(s2);
      var (timestamp, s4) :- TakeInt64(s3);
      var (pubKey, signature) :- Cut(s4, PIPE);
      Some(Transaction(from, to, amount, timestamp, pubKey, signature))
    else
      None
  }

  function DecodeHeader(s: Bytes): Option<Header> {
    if BLOCK_TAG <= s then
      var (height, s1) :- TakeUint64(s[|BLOCK_TAG|..]);
      var (timestamp, s2) :- TakeInt64(s1);
      DecodeHeaderRest(height, timestamp, s2)
    else
      None
  }

  function DecodeHeaderRest(height: uint64, timestamp: int64, s: Bytes): Option<Header> {
    var (prevHash, s3) :- Cut(s, PIPE);
    var (merkleRoot, s4) :- Cut(s3, PIPE);
    var (difficulty, s5) :- TakeInt64(s4);
    var nonce :- ParseUint64(s5);
    Some(Header(height, timestamp, prevHash, merkleRoot, difficulty, nonce))
  }

  lemma TakeWritten(x: Bytes, rest: Bytes)
    ensures TakeLenPrefixed(LenPrefixed(x) + rest) == Some((x, rest))
  {
    var body := x + rest;
    assert LenPrefixed(x) + rest == Digits(|x|) + ([COLON] + body);
    CutAt(Digits(|x|), COLON, body);
    ParseNatDigits(|x|);
    assert body[..|x|] == x && body[|x|..] == rest;
  }

  lemma TakeWrittenAddress(x: Bytes, rest: Bytes)
    ensures TakeAddress(LenPrefixed(x) + ([PIPE] + rest)) == Some((x, rest))
  {
    TakeWritten(x, [PIPE] + rest);
    assert ([PIPE] + rest)[1..] == rest;
  }

  lemma TakeWrittenInt64(v: int64, rest: Bytes)
    ensures TakeInt64(FormatInt(v) + ([PIPE] + rest)) == Some((v, rest))
  {
    CutAt(FormatInt(v), PIPE, rest);
    ParseIntFormatInt(v);
  }

  lemma TakeWrittenUint64(v: uint64, rest: Bytes)
    ensures TakeUint64(Digits(v) + ([PIPE] + rest)) == Some((v, rest))
  {
    CutAt(Digits(v), PIPE, rest);
    ParseNatDigits(v);
  }

  lemma AfterTag(tag: Bytes, s: Bytes)
    ensures tag <= tag + s && (tag + s)[|tag|..] == s
  {
  }

  // The text field x comes off whole exactly when it holds no separator.
  lemma CutWritten(x: Bytes, rest: Bytes)
    ensures Cut(x + ([PIPE] + rest), PIPE).Some?
    ensures Cut(x + ([PIPE] + rest), PIPE) == Some((x, rest)) <==> PIPE !in x
    ensures PIPE in x ==> Cut(x + ([PIPE] + rest), PIPE).value.0 != x
  {
    assert (x + ([PIPE] + rest))[|x|] == PIPE;
    if PIPE !in x {
      CutAt(x, PIPE, rest);
    }
  }

  // The canonical bytes with each field and separator written out.
  lemma CanonicalNested(t: Transaction, s1: Bytes, s2: Bytes, s3: Bytes, s4: Bytes)
    requires s4 == t.pubKey + ([PIPE] + t.signature)
    requires s3 == FormatInt(t.timestamp) + ([PIPE] + s4)
    requires s2 == FormatInt(t.amount) + ([PIPE] + s3)
    requires s1 == LenPrefixed(t.to) + ([PIPE] + s2)
    ensures CanonicalBytes(t) == TX_TAG + (LenPrefixed(t.from) + ([PIPE] + s1))
  {
    var f := SignedFields(t) + [t.signature];
    JoinOneMore(TX_TAG, SignedFields(t), t.signature);
    assert CanonicalBytes(t) == TX_TAG + JoinFields(f);
    PeelFirst(f);
    PeelFirst(f[1..]);
    PeelFirst(f[2..]);
    PeelFirst(f[3..]);
    PeelFirst(f[4..]);
    assert JoinFields(f[5..]) == t.signature;
  }

  lemma PeelFirst(fields: seq<Bytes>)
    requires |fields| > 1
    ensures JoinFields(fields) == fields[0] + ([PIPE] + JoinFields(fields[1..]))
  {
    assert fields == [fields[0]] + fields[1..];
    JoinFirst(fields[0], fields[1..]);
  }

  lemma PreimageNested(h: Header, s1: Bytes, s2: Bytes, s3: Bytes, s4: Bytes)
    requires s4 == FormatInt(h.difficulty) + ([PIPE] + Digits(h.nonce))
    requires s3 == h.merkleRoot + ([PIPE] + s4)
    requires s2 == h.prevHash + ([PIPE] + s3)
    requires s1 == FormatInt(h.timestamp) + ([PIPE] + s2)
    ensures HashPreimage(h) == BLOCK_TAG + (Digits(h.height) + ([PIPE] + s1))
  {
    var f := HeaderFields(h);
    PeelFirst(f);
    PeelFirst(f[1..]);
    PeelFirst(f[2..]);
    PeelFirst(f[3..]);
    PeelFirst(f[4..]);
    assert JoinFields(f[5..]) == Digits(h.nonce);
  }

  // The encoding of a transaction can be read back exactly when its key holds no
  // separator. Addresses may hold any bytes, and the signature comes last.
  lemma DecodeCanonical(t: Transaction)
    ensures DecodeTransaction(CanonicalBytes(t)) == Some(t) <==> PIPE !in t.pubKey
  {
    var s4 := t.pubKey + ([PIPE] + t.signature);
    var s3 := FormatInt(t.timestamp) + ([PIPE] + s4);
    var s2 := FormatInt(t.amount) + ([PIPE] + s3);
    var s1 := LenPrefixed(t.to) + ([PIPE] + s2);
    var s0 := LenPrefixed(t.from) + ([PIPE] + s1);
    CanonicalNested(t, s1, s2, s3, s4);
    AfterTag(TX_TAG, s0);
    TakeWrittenAddress(t.from, s1);
    TakeWrittenAddress(t.to, s2);
    TakeWrittenInt64(t.amount, s3);
    TakeWrittenInt64(t.timestamp, s4);
    CutWritten(t.pubKey, t.signature);
  }

  lemma CanonicalInjective(t: Transaction, u: Transaction)
    requires PIPE !in t.pubKey && PIPE !in u.pubKey
    requires CanonicalBytes(t) == CanonicalBytes(u)
    ensures t == u
  {
    DecodeCanonical(t);
    DecodeCanonical(u);
  }

  // A signature covers every field but itself, whatever the fields hold: the key
  // comes last in the signed bytes.
  lemma SigningBytesInjective(t: Transaction, u: Transaction)
    requires SigningBytes(t) == SigningBytes(u)
    ensures t.(signature := u.signature) == u
  {
    SigningNested(t);
    SigningNested(u);
    var t1, u1 := AfterFrom(t), AfterFrom(u);
    TakeWrittenAddress(t.from, t1);
    TakeWrittenAddress(u.from, u1);
    assert (TX_TAG + (LenPrefixed(t.from) + ([PIPE] + t1)))[3..] == LenPrefixed(t.from) + ([PIPE] + t1);
    assert (TX_TAG + (LenPrefixed(u.from) + ([PIPE] + u1)))[3..] == LenPrefixed(u.from) + ([PIPE] + u1);
    TakeWrittenAddress(t.to, AfterTo(t));
    TakeWrittenAddress(u.to, AfterTo(u));
    TakeWrittenInt64(t.amount, FormatInt(t.timestamp) + ([PIPE] + t.pubKey));
    TakeWrittenInt64(u.amount, FormatInt(u.timestamp) + ([PIPE] + u.pubKey));
    TakeWrittenInt64(t.timestamp, t.pubKey);
    TakeWrittenInt64(u.timestamp, u.pubKey);
  }

  // The signed bytes that follow the recipient and the sender.
  function AfterTo(t: Transaction): Bytes {
    FormatInt(t.amount) + ([PIPE] + (FormatInt(t.timestamp) + ([PIPE] + t.pubKey)))
  }

  function AfterFrom(t: Transaction): Bytes {
    LenPrefixed(t.to) + ([PIPE] + AfterTo(t))
  }

  lemma SigningNested(t: Transaction)
    ensures SigningBytes(t) == TX_TAG + (LenPrefixed(t.from) + ([PIPE] + AfterFrom(t)))
  {
    var f := SignedFields(t);
    PeelFirst(f);
    PeelFirst(f[1..]);
    PeelFirst(f[2..]);
    PeelFirst(f[3..]);
    assert JoinFields(f[4..]) == t.pubKey;
  }

  // Without that condition the separator really is ambiguous: moving it between
  // the key and the signature changes the transaction but not its bytes.
  lemma SeparatorInKeyIsAmbiguous(t: Transaction, a: Bytes, b: Bytes, c: Bytes)
    ensures CanonicalBytes(t.(pubKey := a + ([PIPE] + b), signature := c))
         == CanonicalBytes(t.(pubKey := a, signature := b + ([PIPE] + c)))
  {
    var u, v := t.(pubKey := a + ([PIPE] + b), signature := c), t.(pubKey := a, signature := b + ([PIPE] + c));
    var s4 := v.pubKey + ([PIPE] + v.signature);
    assert u.pubKey + ([PIPE] + u.signature) == s4;
    var s3 := FormatInt(t.timestamp) + ([PIPE] + s4);
    var s2 := FormatInt(t.amount) + ([PIPE] + s3);
    var s1 := LenPrefixed(t.to) + ([PIPE] + s2);
    CanonicalNested(u, s1, s2, s3, s4);
    CanonicalNested(v, s1, s2, s3, s4);
  }

  lemma DecodeRest(h: Header, s2: Bytes, s3: Bytes, s4: Bytes)
    requires s4 == FormatInt(h.difficulty) + ([PIPE] + Digits(h.nonce))
    requires s3 == h.merkleRoot + ([PIPE] + s4)
    requires s2 == h.prevHash + ([PIPE] + s3)
    ensures DecodeHeaderRest(h.height, h.timestamp, s2) == Some(h) <==> PIPE !in h.prevHash && PIPE !in h.merkleRoot
  {
    CutWritten(h.prevHash, s3);
    if PIPE !in h.prevHash {
      CutWritten(h.merkleRoot, s4);
      if PIPE !in h.merkleRoot {
        TakeWrittenInt64(h.difficulty, Digits(h.nonce));
        ParseNatDigits(h.nonce);
      }
    }
  }

  // The preimage of a block hash can be read back exactly when its two text
  // fields hold no separator.
  lemma DecodePreimage(h: Header)
    ensures DecodeHeader(HashPreimage(h)) == Some(h) <==> PIPE !in h.prevHash && PIPE !in h.merkleRoot
  {
    var s4 := FormatInt(h.difficulty) + ([PIPE] + Digits(h.nonce));
    var s3 := h.merkleRoot + ([PIPE] + s4);
    var s2 := h.prevHash + ([PIPE] + s3);
    var s1 := FormatInt(h.timestamp) + ([PIPE] + s2);
    var s0 := Digits(h.height) + ([PIPE] + s1);
    PreimageNested(h, s1, s2, s3, s4);
    AfterTag(BLOCK_TAG, s0);
    TakeWrittenUint64(h.height, s1);
    TakeWrittenInt64(h.timestamp, s2);
    DecodeRest(h, s2, s3, s4);
  }

  lemma PreimageInjective(h: Header, k: Header)
    requires PIPE !in h.prevHash && PIPE !in h.merkleRoot
    requires PIPE !in k.prevHash && PIPE !in k.merkleRoot
    requires HashPreimage(h) == HashPreimage(k)
    ensures h == k
  {
    DecodePreimage(h);
    DecodePreimage(k);
  }

  // The two kinds of hashed text never coincide.
  lemma TagsDiffer(t: Transaction, h: Header)
    ensures CanonicalBytes(t) != HashPreimage(h)
  {
    assert CanonicalBytes(t)[0] == TX_TAG[0];
    assert HashPreimage(h)[0] == BLOCK_TAG[0];
  }
}
