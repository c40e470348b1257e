/**
 The one-shot and the staged hash (base/hash.cc), over bytes and 32-bit words.
 */
module Hashing {

  type Byte = b: bv32 | b <= 0xff

  /** get16bits: two bytes, the first one lowest. */
  function Get16(lo: Byte, hi: Byte): bv32 {
    (hi << 8) + lo
  }

  /** A byte as a signed char, widened to 32 bits. */
  function SignExtend(b: Byte): bv32 {
    if b & 0x80 == 0 then b else b | 0xffff_ff00
  }

  function Add(hash: bv32, n: bv32): bv32 {
    hash + n
  }

  /** hash ^= n << k */
  function XorShl(hash: bv32, n: bv32, k: nat): bv32
    requires k < 32
  {
    hash ^ (n << k)
  }

  /** hash += hash >> k */
  function AddShr(hash: bv32, k: nat): bv32
    requires k < 32
  {
    hash + (hash >> k)
  }

  /** The next state in the main loop: hash = (hash << 16) ^ tmp with tmp = (n << 11) ^ hash. */
  function ShlXor(hash: bv32, n: bv32): bv32 {
    var tmp := (n << 11) ^ hash;
    (hash << 16) ^ tmp
  }

  /** One round of the main loop, on four bytes. */
  function Round(hash: bv32, b0: Byte, b1: Byte, b2: Byte, b3: Byte): bv32 {
    AddShr(ShlXor(Add(hash, Get16(b0, b1)), Get16(b2, b3)), 11)
  }

  /** The end cases, on the up to three bytes that are left. */
  function Tail(hash: bv32, rest: seq<Byte>): bv32
    requires |rest| < 4
  {
    if |rest| == 3 then
      var h := Add(hash, Get16(rest[0], rest[1]));
      AddShr(XorShl(XorShl(h, h, 16), SignExtend(rest[2]), 18), 11)
    else if |rest| == 2 then
      var h := Add(hash, Get16(rest[0], rest[1]));
      AddShr(XorShl(h, h, 11), 17)
    else if |rest| == 1 then
      var h := Add(hash, SignExtend(rest[0]));
      AddShr(XorShl(h, h, 10), 1)
    else hash
  }

  /** The final avalanche. */
  function Avalanche(hash: bv32): bv32 {
    var b := AddShr(XorShl(hash, hash, 3), 5);
    var d := AddShr(XorShl(b, b, 4), 17);
    AddShr(XorShl(d, d, 25), 6)
  }

  /** What a hash state becomes when data is fed to it. */
  function Feed(hash: bv32, data: seq<Byte>): bv32
    decreases |data|
  {
    if |data| < 4 then Tail(hash, data)
    else Feed(Round(hash, data[0], data[1], data[2], data[3]), data[4..])
  }

  /** What the chunks fed one after the other make of a hash state. */
  function FeedAll(hash: bv32, chunks: seq<seq<Byte>>): bv32
    decreases |chunks|
  {
    if chunks == [] then hash else FeedAll(Feed(hash, chunks[0]), chunks[1..])
  }

  function Concat(chunks: seq<seq<Byte>>): seq<Byte> {
    if chunks == [] then [] else chunks[0] + Concat(chunks[1..])
  }

  /** Feeding whole words first and the rest later is feeding everything at once. */
  lemma {:induction false} FeedConcat(hash: bv32, a: seq<Byte>, b: seq<Byte>)
    requires |a| % 4 == 0
    ensures Feed(hash, a + b) == Feed(Feed(hash, a), b)
    decreases |a|
  {
    var ab := a + b;
    if a == [] {
      assert ab == b;
    } else {
      var h := Round(hash, a[0], a[1], a[2], a[3]);
      FeedConcat(h, a[4..], b);
      assert ab[4..] == a[4..] + b;
      assert ab[0] == a[0] && ab[1] == a[1] && ab[2] == a[2] && ab[3] == a[3];
    }
  }

  /** All chunks before the last non-empty one consist of whole words. */
  predicate Splits(chunks: seq<seq<Byte>>) {
    forall i, j :: 0 <= i < j < |chunks| && chunks[j] != [] ==> |chunks[i]| % 4 == 0
  }

  lemma {:induction false} FeedAllConcat(hash: bv32, chunks: seq<seq<Byte>>)
    requires Splits(chunks)
    ensures FeedAll(hash, chunks) == Feed(hash, Concat(chunks))
    decreases |chunks|
  {
    if chunks != [] {
      var rest := chunks[1..];
      assert forall k :: 0 <= k < |rest| ==> rest[k] == chunks[k + 1];
      FeedAllConcat(Feed(hash, chunks[0]), rest);
      if |chunks[0]| % 4 == 0 {
        FeedConcat(hash, chunks[0], Concat(rest));
      } else {
        NothingLeft(rest);
        assert chunks[0] + [] == chunks[0];
      }
    }
  }

  lemma {:induction false} NothingLeft(chunks: seq<seq<Byte>>)
    requires forall i :: 0 <= i < |chunks| ==> chunks[i] == []
    ensures Concat(chunks) == []
  {
    if chunks != [] {
      NothingLeft(chunks[1..]);
    }
  }

  method Hash(data: seq<Byte>) returns (hash: bv32)
    ensures hash == Avalanche(Feed(0, data))
  {
    hash := 0;
    if |data| == 0 {
      return;
    }
    var rem := |data| % 4;
    var len := |data| / 4;
    var p := 0;
    while len > 0
      invariant 0 <= p && 0 <= len && p + 4 * len + rem == |data|
      invariant Feed(hash, data[p..]) == Feed(0, data)
    {
      assert data[p..][4..] == data[p + 4..];
      hash := Add(hash, Get16(data[p], data[p + 1]));
      hash := ShlXor(hash, Get16(data[p + 2], data[p + 3]));
      hash := AddShr(hash, 11);
      p, len := p + 4, len - 1;
    }
    hash := HandleEndCases(hash, data[p..]);
    hash := XorShl(hash, hash, 3);
    hash := AddShr(hash, 5);
    hash := XorShl(hash, hash, 4);
    hash := AddShr(hash, 17);
    hash := XorShl(hash, hash, 25);
    hash := AddShr(hash, 6);
  }

  /** The switch at the end of Hash and HashStep. */
  method HandleEndCases(hash0: bv32, rest: seq<Byte>) returns (hash: bv32)
    requires |rest| < 4
    ensures hash == Tail(hash0, rest)
  {
    hash := hash0;
    match |rest| {
      case 3 =>
        hash := Add(hash, Get16(rest[0], rest[1]));
        hash := XorShl(hash, hash, 16);
        hash := XorShl(hash, SignExtend(rest[2]), 18);
        hash := AddShr(hash, 11);
      case 2 =>
        hash := Add(hash, Get16(rest[0], rest[1]));
        hash := XorShl(hash, hash, 11);
        hash := AddShr(hash, 17);
      case 1 =>
        hash := Add(hash, SignExtend(rest[0]));
        hash := XorShl(hash, hash, 10);
        hash := AddShr(hash, 1);
      case _ =>
    }
  }

  method HashStep(hash0: bv32, data: seq<Byte>) returns (hash: bv32)
    ensures hash == Feed(hash0, data)
  {
    hash := hash0;
    var rem := |data| % 4;
    var len := |data| / 4;
    var p := 0;
    while len > 0
      invariant 0 <= p && 0 <= len && p + 4 * len + rem == |data|
      invariant Feed(hash, data[p..]) == Feed(hash0, data)
    {
      assert data[p..][4..] == data[p + 4..];
      hash := Add(hash, Get16(data[p], data[p + 1]));
      hash := ShlXor(hash, Get16(data[p + 2], data[p + 3]));
      hash := AddShr(hash, 11);
      p, len := p + 4, len - 1;
    }
    hash := HandleEndCases(hash, data[p..]);
  }

  method HashFinish(hash0: bv32) returns (hash: bv32)
    ensures hash == Avalanche(hash0)
  {
    hash := hash0;
    hash := XorShl(hash, hash, 3);
    hash := AddShr(hash, 5);
    hash := XorShl(hash, hash, 4);
    hash := AddShr(hash, 17);
    hash := XorShl(hash, hash, 25);
    hash := AddShr(hash, 6);
  }

  /** Hashing in stages: one HashStep a chunk from 0, and then HashFinish, is Hash of all the
      data, when every chunk but the last consists of whole words. */
  method HashInStages(chunks: seq<seq<Byte>>) returns (staged: bv32, oneShot: bv32)
    requires Splits(chunks)
    ensures staged == oneShot
  {
    staged := 0;
    var i := 0;
    while i < |chunks|
      invariant 0 <= i <= |chunks|
      invariant FeedAll(staged, chunks[i..]) == FeedAll(0, chunks)
    {
      assert chunks[i..][1..] == chunks[i + 1..];
      staged := HashStep(staged, chunks[i]);
      i := i + 1;
    }
    FeedAllConcat(0, chunks);
    staged := HashFinish(staged);
    oneShot := Hash(Concat(chunks));
  }
}
