/**
 When hashing in stages is hashing (base/hash.cc).
 */
module StagedHashing {
  import opened Hashing
  import opened HashCycles

  /** A chunk that ends inside a word spoils it: "a" and then "b" is not "ab". */
  lemma UnevenChunksDiffer()
    ensures !Splits([[0x61], [0x62]])
    ensures Avalanche(FeedAll(0, [[0x61], [0x62]])) != Avalanche(Feed(0, [0x61, 0x62]))
  {
    var a: seq<Byte>, b: seq<Byte> := [0x61], [0x62];
    var chunks := [a, b];
    assert chunks[0] == a && chunks[1] == b;
    PieceByPiece(a, b);
    assert chunks[1..] == [b] && [b][1..] == [];
    hide Avalanche;
    LeftoverIs(0x0da6_506c, 0, 0x0da6_506c, 0x6399_79a4, 0x5a0f_10eb, 0x8e3f_4d2e);
    LeftoverIs(0x0313_6bea, 0, 0x0313_6bea, 0x1c64_765f, 0xda23_80c0, 0x5b8c_0ec3);
  }

  lemma PieceByPiece(a: seq<Byte>, b: seq<Byte>)
    requires a == [0x61] && b == [0x62]
    ensures Feed(Feed(0, a), b) == 0x0da6_506c
    ensures Feed(0, [0x61, 0x62]) == 0x0313_6bea
  {
    assert XorShl(0x61, 0x61, 10) == 0x1_8461 && AddShr(0x1_8461, 1) == 0x2_4691;
  }

  function Lengths(chunks: seq<seq<Byte>>): seq<nat> {
    seq(|chunks|, i requires 0 <= i < |chunks| => |chunks[i]|)
  }

  function Sum(lens: seq<nat>): nat {
    if lens == [] then 0 else lens[0] + Sum(lens[1..])
  }

  ghost predicate StagedAgrees(chunks: seq<seq<Byte>>) {
    Avalanche(FeedAll(0, chunks)) == Avalanche(Feed(0, Concat(chunks)))
  }

  /** Splits, of the lengths of the chunks. */
  predicate WordAligned(lens: seq<nat>) {
    forall i, j :: 0 <= i < j < |lens| && lens[j] > 0 ==> lens[i] % 4 == 0
  }

  /** Chunks of these lengths are hashed right, whatever they contain. */
  ghost predicate AlwaysAgrees(lens: seq<nat>) {
    forall chunks :: Lengths(chunks) == lens ==> StagedAgrees(chunks)
  }

  /** That is so exactly if all chunks before the last non-empty one consist of whole words. */
  lemma AgreesIffAligned(lens: seq<nat>)
    ensures AlwaysAgrees(lens) <==> WordAligned(lens)
  {
    if WordAligned(lens) {
      forall chunks | Lengths(chunks) == lens ensures StagedAgrees(chunks) {
        AlignedAgrees(chunks);
      }
    } else {
      var chunks := Counterexample(lens);
    }
  }

  lemma AlignedAgrees(chunks: seq<seq<Byte>>)
    requires WordAligned(Lengths(chunks))
    ensures StagedAgrees(chunks)
  {
    LengthsOf(chunks);
    FeedAllConcat(0, chunks);
  }

  lemma LengthsOf(chunks: seq<seq<Byte>>)
    ensures Splits(chunks) <==> WordAligned(Lengths(chunks))
  {
    var lens := Lengths(chunks);
    if Splits(chunks) {
      forall i, j | 0 <= i < j < |lens| && lens[j] > 0 ensures lens[i] % 4 == 0 {
        assert chunks[j] != [];
      }
    } else {
      var i, j :| 0 <= i < j < |chunks| && chunks[j] != [] && |chunks[i]| % 4 != 0;
      assert lens[j] > 0 && lens[i] % 4 != 0;
    }
  }

  /** Chunks of these lengths are hashed right, whatever they contain, after each of them. */
  ghost predicate AgreesAtEveryStage(lens: seq<nat>) {
    forall chunks, p :: Lengths(chunks) == lens && 0 <= p <= |chunks| ==> StagedAgrees(chunks[..p])
  }

  /** That is so under the same condition. */
  lemma StagesAgreeIffAligned(lens: seq<nat>)
    ensures AgreesAtEveryStage(lens) <==> WordAligned(lens)
  {
    if WordAligned(lens) {
      forall chunks, p | Lengths(chunks) == lens && 0 <= p <= |chunks| ensures StagedAgrees(chunks[..p]) {
        assert Lengths(chunks[..p]) == lens[..p];
        AlignedAgrees(chunks[..p]);
      }
    } else {
      var chunks := Counterexample(lens);
      assert chunks[..|chunks|] == chunks;
    }
  }

  /** Chunk i is not empty and starts inside a word of the data. */
  predicate StartsInside(lens: seq<nat>, i: int) {
    0 <= i < |lens| && lens[i] > 0 && Sum(lens[..i]) % 4 != 0
  }

  /** After the last chunk that starts inside a word, either nothing more comes, or the rest starts
      on a word and consists of whole words: then the rest keeps the two states apart. */
  lemma Counterexample(lens: seq<nat>) returns (chunks: seq<seq<Byte>>)
    requires !WordAligned(lens)
    ensures Lengths(chunks) == lens && !StagedAgrees(chunks)
  {
    hide StagedAgrees;
    hide Avalanche;
    hide Feed;
    hide EndState;
    hide Marked;
    hide Cut;
    var m := LastMisaligned(lens);
    var later := lens[m + 1..];
    MisalignedChunkDiffers(lens, m);
    MarkedParts(lens, m);
    var front := Marked(lens, m)[..m + 1];
    var data := [];
    if Sum(later) > 0 {
      SumSnoc(lens, m);
      NotZero(Sum(lens[..m]), lens[m]);
      data := KeptApart(lens[m] % 4, Sum(later));
      RestApart(lens, m, data);
    } else {
      CutParts(data, later);
      NothingAdded(front, Cut(data, later));
    }
    CutParts(data, later);
    chunks := front + Cut(data, later);
    JoinLengths(lens, m, front, Cut(data, later));
  }

  lemma NotZero(a: nat, b: nat)
    requires a % 4 != 0 && (a + b) % 4 == 0
    ensures 1 <= b % 4 <= 3
  {
  }

  lemma JoinLengths(lens: seq<nat>, m: nat, front: seq<seq<Byte>>, rest: seq<seq<Byte>>)
    requires m < |lens| && Lengths(front) == lens[..m + 1] && Lengths(rest) == lens[m + 1..]
    ensures Lengths(front + rest) == lens
  {
    assert lens == lens[..m + 1] + lens[m + 1..];
    assert Lengths(front + rest) == Lengths(front) + Lengths(rest);
  }

  /** The data in chunks of the given lengths. */
  function Cut(data: seq<Byte>, lens: seq<nat>): seq<seq<Byte>>
    requires |data| == Sum(lens)
  {
    if lens == [] then [] else [data[..lens[0]]] + Cut(data[lens[0]..], lens[1..])
  }

  lemma {:induction false} CutParts(data: seq<Byte>, lens: seq<nat>)
    requires |data| == Sum(lens)
    ensures Lengths(Cut(data, lens)) == lens && Concat(Cut(data, lens)) == data
  {
    if lens != [] {
      var chunks, rest := Cut(data, lens), Cut(data[lens[0]..], lens[1..]);
      CutParts(data[lens[0]..], lens[1..]);
      assert chunks[1..] == rest;
      assert Lengths(chunks) == [lens[0]] + Lengths(rest);
      assert lens == [lens[0]] + lens[1..];
    }
  }

  lemma {:induction false} FeedAllAppend(hash: bv32, a: seq<seq<Byte>>, b: seq<seq<Byte>>)
    ensures FeedAll(hash, a + b) == FeedAll(FeedAll(hash, a), b)
    ensures Concat(a + b) == Concat(a) + Concat(b)
    decreases |a|
  {
    if a == [] {
      assert a + b == b;
    } else {
      assert (a + b)[1..] == a[1..] + b;
      FeedAllAppend(Feed(hash, a[0]), a[1..], b);
    }
  }

  lemma NothingAdded(front: seq<seq<Byte>>, rest: seq<seq<Byte>>)
    requires Concat(rest) == [] && !StagedAgrees(front)
    ensures !StagedAgrees(front + rest)
  {
    FeedAllAppend(0, front, rest);
    AllEmpty(rest);
    FeedAllConcat(FeedAll(0, front), rest);
    assert Concat(front) + [] == Concat(front);
  }

  lemma {:induction false} AllEmpty(chunks: seq<seq<Byte>>)
    requires Concat(chunks) == []
    ensures forall i :: 0 <= i < |chunks| ==> chunks[i] == []
  {
    if chunks != [] {
      AllEmpty(chunks[1..]);
      assert forall i :: 0 < i < |chunks| ==> chunks[i] == chunks[1..][i - 1];
    }
  }

  lemma RestApart(lens: seq<nat>, m: nat, data: seq<Byte>)
    requires StartsInside(lens, m) && Sum(lens[..m + 1]) % 4 == 0 && WordAligned(lens[m + 1..])
    requires |data| == Sum(lens[m + 1..])
    requires Avalanche(Feed(EndState(lens[m] % 4), data)) != Avalanche(Feed(EndState(0), data))
    ensures !StagedAgrees(Marked(lens, m)[..m + 1] + Cut(data, lens[m + 1..]))
  {
    hide Feed;
    hide Avalanche;
    hide EndState;
    hide Marked;
    MarkedParts(lens, m);
    var front, rest := Marked(lens, m)[..m + 1], Cut(data, lens[m + 1..]);
    FeedAllAppend(0, front, rest);
    CutParts(data, lens[m + 1..]);
    LengthsOf(rest);
    FeedAllConcat(FeedAll(0, front), rest);
    MarkedStates(lens, m);
    SumSnoc(lens, m);
    FeedConcat(0, Concat(front), data);
  }

  /** A non-empty chunk that starts inside a word of the data is not hashed right: a single byte
      of 1 at its end shows it. */
  lemma MisalignedChunkDiffers(lens: seq<nat>, m: nat)
    requires StartsInside(lens, m)
    ensures Lengths(Marked(lens, m)) == lens
    ensures !StagedAgrees(Marked(lens, m)[..m + 1])
  {
    hide Avalanche;
    hide Feed;
    hide Marked;
    hide EndState;
    MarkedParts(lens, m);
    MarkedStates(lens, m);
    EndsDiffer(lens[m] % 4, (Sum(lens[..m]) + lens[m]) % 4);
  }

  /** The states of staged and of one-shot hashing after that byte. */
  lemma MarkedStates(lens: seq<nat>, m: nat)
    requires m < |lens| && lens[m] > 0
    ensures var front, n := Marked(lens, m)[..m + 1], Sum(lens[..m]) + lens[m];
      && FeedAll(0, front) == EndState(lens[m] % 4)
      && |Concat(front)| == n && Feed(0, Concat(front)) == EndState(n % 4)
  {
    hide Avalanche;
    hide Feed;
    hide FeedAll;
    hide Concat;
    hide Zeros;
    hide Marked;
    hide EndState;
    MarkedParts(lens, m);
    ZerosBefore(Marked(lens, m)[..m], Marked(lens, m)[m]);
    var n, before := lens[m], Sum(lens[..m]);
    LastByte(n);
    LastByte(before + n);
    ZerosAppend(before, n);
  }

  /** Zeros, but for a 1 at the end of chunk m. */
  function Marked(lens: seq<nat>, m: nat): seq<seq<Byte>>
    requires m < |lens| && lens[m] > 0
  {
    seq(|lens|, i requires 0 <= i < |lens| => if i == m then Zeros(lens[m] - 1) + [1] else Zeros(lens[i]))
  }

  lemma MarkedParts(lens: seq<nat>, m: nat)
    requires m < |lens| && lens[m] > 0
    ensures var chunks := Marked(lens, m);
      && Lengths(chunks) == lens && |chunks| == |lens|
      && chunks[..m + 1] == chunks[..m] + [chunks[m]] && chunks[m] == Zeros(lens[m] - 1) + [1]
      && Lengths(chunks[..m + 1]) == lens[..m + 1]
      && Lengths(chunks[..m]) == lens[..m] && forall i :: 0 <= i < m ==> chunks[..m][i] == Zeros(|chunks[..m][i]|)
  {
  }

  lemma ZerosAppend(before: nat, n: nat)
    requires n > 0
    ensures Zeros(before) + (Zeros(n - 1) + [1]) == Zeros(before + n - 1) + [1]
    ensures |Zeros(before + n - 1) + [1]| == before + n
  {
  }

  lemma {:induction false} LastByte(n: nat)
    requires n > 0
    ensures Feed(0, Zeros(n - 1) + [1]) == EndState(n % 4)
  {
    hide Round;
    hide Tail;
    hide EndState;
    ZeroRounds();
    var data := Zeros(n - 1) + [1];
    if n > 4 {
      assert data[4..] == Zeros(n - 5) + [1];
      LastByte(n - 4);
      assert (n - 4) % 4 == n % 4;
    } else if n == 4 {
      WordEnd(data);
    } else {
      ShortEnd(data);
    }
  }

  lemma WordEnd(data: seq<Byte>)
    requires |data| == 4 && data[3] == 1 && forall i :: 0 <= i < 3 ==> data[i] == 0
    ensures Feed(0, data) == EndState(0)
  {
    assert data[4..] == [];
    ZeroRounds();
  }

  lemma ZeroRounds()
    ensures Round(0, 0, 0, 0, 0) == 0
    ensures Round(0, 0, 0, 0, 1) == 0x8_0100
  {
  }

  lemma ShortEnd(data: seq<Byte>)
    requires 0 < |data| < 4 && data[|data| - 1] == 1 && forall i :: 0 <= i < |data| - 1 ==> data[i] == 0
    ensures Tail(0, data) == EndState(|data|)
  {
  }

  lemma EndsDiffer(a: nat, b: nat)
    requires a < 4 && b < 4 && a != b
    ensures Avalanche(EndState(a)) != Avalanche(EndState(b))
  {
    hide Avalanche;
    LeftoverIs(0x0008_0100, 0, 0x0008_0100, 0x004a_4948, 0x04ee_e03f, 0x7cda_9bbf);
    LeftoverIs(0x0000_0601, 0, 0x0000_0601, 0x0000_37b9, 0x0003_4c2a, 0x5553_595a);
    LeftoverIs(0x0008_0104, 0, 0x0008_0104, 0x004a_496d, 0x04ee_e234, 0x6ea2_9dbc);
    LeftoverIs(0x0004_0080, 0, 0x0004_0080, 0x0025_24a4, 0x0277_701f, 0x3d69_4ddf);
  }

  /** Chunks of zeros leave the state 0, and add zeros before the last chunk. */
  lemma {:induction false} ZerosBefore(front: seq<seq<Byte>>, last: seq<Byte>)
    requires forall i :: 0 <= i < |front| ==> front[i] == Zeros(|front[i]|)
    ensures FeedAll(0, front + [last]) == Feed(0, last)
    ensures Concat(front + [last]) == Zeros(Sum(Lengths(front))) + last
  {
    var chunks := front + [last];
    if front == [] {
      assert chunks[1..] == [];
      assert last + [] == last;
    } else {
      assert chunks[1..] == front[1..] + [last];
      assert Lengths(front)[1..] == Lengths(front[1..]);
      ZerosBefore(front[1..], last);
      FeedZeros(|front[0]|);
      assert front[0] == Zeros(|front[0]|);
    }
  }

  lemma {:induction false} FeedZeros(n: nat)
    ensures Feed(0, Zeros(n)) == 0
  {
    hide Round;
    ZeroRounds();
    if n >= 4 {
      assert Zeros(n)[4..] == Zeros(n - 4);
      FeedZeros(n - 4);
    } else {
      ZeroTail(Zeros(n));
    }
  }

  lemma ZeroTail(data: seq<Byte>)
    requires |data| < 4 && forall i :: 0 <= i < |data| ==> data[i] == 0
    ensures Tail(0, data) == 0
  {
  }

  /** The last chunk that starts inside a word. */
  lemma LastMisaligned(lens: seq<nat>) returns (m: nat)
    requires !WordAligned(lens)
    ensures StartsInside(lens, m) && WordAligned(lens[m + 1..])
    ensures Sum(lens[m + 1..]) > 0 ==> Sum(lens[..m + 1]) % 4 == 0
  {
    var k := FirstMisaligned(lens);
    m := |lens| - 1;
    while !StartsInside(lens, m)
      invariant k <= m < |lens| && StartsInside(lens, k)
      invariant forall j :: m < j ==> !StartsInside(lens, j)
      decreases m
    {
      m := m - 1;
    }
    var later := lens[m + 1..];
    forall i, j | 0 <= i < j < |later| && later[j] > 0 ensures later[i] % 4 == 0 {
      var n := m + 1 + i;
      assert lens[n] == later[i] && lens[m + 1 + j] == later[j];
      EndsOnWord(lens, n, m + 1 + j);
      SumSnoc(lens, n);
      if later[i] > 0 {
        assert !StartsInside(lens, n);
      }
    }
    if Sum(later) > 0 {
      var j := SomeNonEmpty(later);
      EndsOnWord(lens, m, m + 1 + j);
    }
  }

  /** If no chunk after i starts inside a word, and one of them is not empty, i ends on a word. */
  lemma {:induction false} EndsOnWord(lens: seq<nat>, i: nat, j: nat)
    requires i < j < |lens| && lens[j] > 0
    requires forall k :: i < k ==> !StartsInside(lens, k)
    ensures Sum(lens[..i + 1]) % 4 == 0
    decreases |lens| - i
  {
    assert !StartsInside(lens, i + 1);
    if lens[i + 1] == 0 {
      EndsOnWord(lens, i + 1, j);
      SumSnoc(lens, i + 1);
    }
  }

  lemma SumSnoc(lens: seq<nat>, i: nat)
    requires i < |lens|
    ensures Sum(lens[..i + 1]) == Sum(lens[..i]) + lens[i]
  {
    assert lens[..i + 1] == lens[..i] + [lens[i]];
    SumAppend(lens[..i], lens[i]);
  }

  lemma {:induction false} SumAppend(lens: seq<nat>, n: nat)
    ensures Sum(lens + [n]) == Sum(lens) + n
  {
    if lens != [] {
      assert (lens + [n])[1..] == lens[1..] + [n];
      SumAppend(lens[1..], n);
    }
  }

  lemma {:induction false} SomeNonEmpty(lens: seq<nat>) returns (j: nat)
    requires Sum(lens) > 0
    ensures j < |lens| && lens[j] > 0
  {
    if lens[0] > 0 {
      j := 0;
    } else {
      j := SomeNonEmpty(lens[1..]);
      j := j + 1;
    }
  }

  /** The first non-empty chunk after the first one that ends inside a word starts inside a word. */
  lemma {:induction false} FirstMisaligned(lens: seq<nat>) returns (m: nat)
    requires !WordAligned(lens)
    ensures StartsInside(lens, m)
  {
    var i, j :| 0 <= i < j < |lens| && lens[j] > 0 && lens[i] % 4 != 0;
    var rest := lens[1..];
    if lens[0] % 4 != 0 {
      assert rest[j - 1] == lens[j];
      var k := FirstNonEmpty(rest);
      m := k + 1;
      assert lens[..m][1..] == rest[..k];
    } else {
      assert rest[i - 1] == lens[i] && rest[j - 1] == lens[j];
      var k := FirstMisaligned(rest);
      m := k + 1;
      assert lens[..m][1..] == rest[..k];
    }
  }

  lemma {:induction false} FirstNonEmpty(lens: seq<nat>) returns (k: nat)
    requires exists j :: 0 <= j < |lens| && lens[j] > 0
    ensures k < |lens| && lens[k] > 0 && Sum(lens[..k]) == 0
  {
    if lens[0] > 0 {
      k := 0;
    } else {
      var j :| 0 <= j < |lens| && lens[j] > 0;
      assert lens[1..][j - 1] == lens[j];
      var l := FirstNonEmpty(lens[1..]);
      k := l + 1;
      assert lens[..k][1..] == lens[1..][..l];
    }
  }
}
