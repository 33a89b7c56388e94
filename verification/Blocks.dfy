/** Blocks: their fields, the bytes their hash is taken over, and the genesis block. */
module Blocks {
  import opened Prelude
  import opened Encoding
  import opened Crypto
  import opened TextBuilder
  import opened Transactions
  import Merkle

  const BLOCK_TAG: Bytes := [98, 108, 111, 99, 107, 124] // "block|"
  const GENESIS_PREV_HASH: Bytes := Zeros(64)
  const GENESIS_TIMESTAMP: int64 := 1767225600

  datatype Block = Block(
    height: uint64,
    timestamp: int64,
    transactions: seq<Transaction>,
    merkleRoot: Bytes,
    prevHash: Bytes,
    difficulty: int64,
    nonce: uint64,
    hash: Bytes
  ) {
    // Everything that feeds the hash.
    function Fields(): Header {
      Header(height, timestamp, prevHash, merkleRoot, difficulty, nonce)
    }
  }

  datatype Header = Header(
    height: uint64,
    timestamp: int64,
    prevHash: Bytes,
    merkleRoot: Bytes,
    difficulty: int64,
    nonce: uint64
  )

  // New: an unmined block, with the zero nonce and no hash.
  function Candidate(cr: Suite, height: uint64, prevHash: Bytes, txs: seq<Transaction>, difficulty: int64, timestamp: int64): Block {
    Block(height, timestamp, txs, Merkle.Root(cr, txs), prevHash, difficulty, 0, [])
  }

  function HeaderFields(h: Header): seq<Bytes> {
    [Digits(h.height), FormatInt(h.timestamp), h.prevHash, h.merkleRoot, FormatInt(h.difficulty), Digits(h.nonce)]
  }

  function HashPreimage(h: Header): Bytes {
    BLOCK_TAG + JoinFields(HeaderFields(h))
  }

  method WriteHashPreimage(h: Header) returns (text: Bytes)
    ensures text == HashPreimage(h)
  {
    var s := new Builder();
    s.WriteString(BLOCK_TAG);
    s.WriteString(Digits(h.height));
    ghost var fields := [Digits(h.height)];
    assert s.text == BLOCK_TAG + JoinFields(fields);
    s.WriteByte(PIPE);
    s.WriteString(FormatInt(h.timestamp));
    fields := Wrote(BLOCK_TAG, fields, FormatInt(h.timestamp));
    s.WriteByte(PIPE);
    s.WriteString(h.prevHash);
    fields := Wrote(BLOCK_TAG, fields, h.prevHash);
    s.WriteByte(PIPE);
    s.WriteString(h.merkleRoot);
    fields := Wrote(BLOCK_TAG, fields, h.merkleRoot);
    s.WriteByte(PIPE);
    s.WriteString(FormatInt(h.difficulty));
    fields := Wrote(BLOCK_TAG, fields, FormatInt(h.difficulty));
    s.WriteByte(PIPE);
    s.WriteString(Digits(h.nonce));
    fields := Wrote(BLOCK_TAG, fields, Digits(h.nonce));
    assert fields == HeaderFields(h);
    return s.text;
  }

  function ComputeHash(cr: Suite, b: Block): (hash: Bytes)
    ensures |hash| == 64 && forall i :: 0 <= i < |hash| ==> IsLowerHex(hash[i])
  {
    Hex(Sha256(cr, HashPreimage(b.Fields())))
  }

  predicate HasValidHash(cr: Suite, b: Block) {
    b.hash == ComputeHash(cr, b)
  }

  predicate HasValidMerkleRoot(cr: Suite, b: Block) {
    b.merkleRoot == Merkle.Root(cr, b.transactions)
  }

  // strings.Repeat panics on a negative count.
  predicate MeetsDifficulty(hash: Bytes, difficulty: int)
    requires difficulty >= 0
  {
    difficulty <= |hash| && Zeros(difficulty) <= hash
  }

  function Genesis(cr: Suite): Block {
    var b := Candidate(cr, 0, GENESIS_PREV_HASH, [], 0, GENESIS_TIMESTAMP);
    b.(hash := ComputeHash(cr, b))
  }

  // What hashing a block feeds to SHA-256: its preimage, each transaction, and
  // each pair of the Merkle reduction.
  ghost function BlockInputs(cr: Suite, b: Block): set<Bytes> {
    {HashPreimage(b.Fields())} + Merkle.RootInputs(cr, b.transactions)
  }
}
