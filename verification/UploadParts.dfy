/** The byte arithmetic of upload parts and the check that a part list is complete. */
module UploadParts {
  import opened Options

  /** The columns of a session that never change. */
  datatype Shape = Shape(sizeBytes: nat, chunkSizeBytes: int, multipart: bool)

  datatype Range = Range(startByte: int, endByte: int, sizeBytes: int)

  /** A stored part; its index is the key of the part table. */
  datatype Part = Part(range: Range, eTag: Option<string>)

  /** A part as a listing returns it. */
  datatype ListedPart = ListedPart(partIndex: int, part: Part)

  /** The indexes 0 .. n - 1. */
  function UpTo(n: nat): (r: set<int>)
    ensures forall i :: i in r <==> 0 <= i < n
    ensures |r| == n
  {
    if n == 0 then {} else UpTo(n - 1) + {n - 1}
  }

  function PartCount(shape: Shape): nat
    requires shape.sizeBytes == 0 || shape.chunkSizeBytes > 0
  {
    if shape.sizeBytes == 0 then 0
    else (shape.sizeBytes + shape.chunkSizeBytes - 1) / shape.chunkSizeBytes
  }

  /** The range a part index stands for, or nothing where the source rejects the index. */
  function ExpectedRange(shape: Shape, partIndex: int): Option<Range> {
    if partIndex < 0 || shape.chunkSizeBytes <= 0 || partIndex >= PartCount(shape) then None
    else
      var startByte := partIndex * shape.chunkSizeBytes;
      var lastOfChunk := startByte + shape.chunkSizeBytes - 1;
      var endByte := if shape.sizeBytes - 1 < lastOfChunk then shape.sizeBytes - 1 else lastOfChunk;
      Some(Range(startByte, endByte, endByte - startByte + 1))
  }

  predicate HasETag(part: Part) {
    part.eTag.Some? && part.eTag.value != ""
  }

  predicate PartMatches(shape: Shape, partIndex: int, part: Part) {
    ExpectedRange(shape, partIndex) == Some(part.range) && (shape.multipart ==> HasETag(part))
  }

  /** What a table holding every expected part, and nothing else, looks like. */
  predicate CompleteTable(shape: Shape, parts: map<int, Part>) {
    && (shape.sizeBytes == 0 || shape.chunkSizeBytes > 0)
    && parts.Keys == UpTo(PartCount(shape))
    && forall i :: i in parts ==> PartMatches(shape, i, parts[i])
  }

  function TotalBytes(parts: map<int, Part>, n: nat): int
    requires UpTo(n) <= parts.Keys
  {
    if n == 0 then 0 else TotalBytes(parts, n - 1) + parts[n - 1].range.sizeBytes
  }

  predicate Covers(range: Range, b: int) {
    range.startByte <= b <= range.endByte
  }

  predicate Covered(parts: map<int, Part>, b: int) {
    exists i :: i in parts && Covers(parts[i].range, b)
  }

  /** The parts cut [0, sizeBytes) into disjoint non-empty ranges, in index order and without a gap. */
  ghost predicate Tiles(parts: map<int, Part>, sizeBytes: nat) {
    && parts.Keys == UpTo(|parts|)
    && (forall i :: i in parts ==>
          && 0 <= parts[i].range.startByte <= parts[i].range.endByte < sizeBytes
          && parts[i].range.sizeBytes == parts[i].range.endByte - parts[i].range.startByte + 1)
    && (forall i, j :: i in parts && j in parts && i < j ==> parts[i].range.endByte < parts[j].range.startByte)
    && (forall b :: 0 <= b < sizeBytes ==> Covered(parts, b))
    && TotalBytes(parts, |parts|) == sizeBytes
  }

  /** The count is the ceiling of the quotient. */
  lemma CeilingBounds(size: int, chunk: int, count: int)
    requires size > 0 && chunk > 0 && count == (size + chunk - 1) / chunk
    ensures count >= 1
    ensures (count - 1) * chunk < size <= count * chunk
  {
    assert size + chunk - 1 == count * chunk + (size + chunk - 1) % chunk;
  }

  lemma {:induction false} ScaledOrder(i: int, j: int, chunk: int)
    requires i < j && chunk > 0
    ensures i * chunk + chunk <= j * chunk
    decreases j - i
  {
    if j == i + 1 {
      assert j * chunk == i * chunk + chunk;
    } else {
      ScaledOrder(i, j - 1, chunk);
      assert j * chunk == (j - 1) * chunk + chunk;
    }
  }

  /** Where the ranges of two indexes lie. */
  lemma RangeBounds(shape: Shape, i: int)
    requires ExpectedRange(shape, i).Some?
    ensures shape.sizeBytes > 0
    ensures var r := ExpectedRange(shape, i).value;
      && 0 <= r.startByte == i * shape.chunkSizeBytes <= r.endByte < shape.sizeBytes
      && (i < PartCount(shape) - 1 ==> r.endByte == r.startByte + shape.chunkSizeBytes - 1)
      && (i == PartCount(shape) - 1 ==> r.endByte == shape.sizeBytes - 1)
  {
    var n := PartCount(shape);
    CeilingBounds(shape.sizeBytes, shape.chunkSizeBytes, n);
    assert i * shape.chunkSizeBytes >= 0;
    if i < n - 1 {
      ScaledOrder(i, n - 1, shape.chunkSizeBytes);
    }
  }

  /** Where the part before ends; before the first byte for the first part. */
  function PreviousEnd(parts: map<int, Part>, i: int): int {
    if i - 1 in parts then parts[i - 1].range.endByte else -1
  }

  predicate LinkedAt(parts: map<int, Part>, n: nat, sizeBytes: nat, i: int)
    requires i in parts
  {
    var r := parts[i].range;
    && r.startByte <= r.endByte && r.sizeBytes == r.endByte - r.startByte + 1
    && r.startByte == PreviousEnd(parts, i) + 1
    && (i == n - 1 ==> r.endByte == sizeBytes - 1)
  }

  /** The ranges start at 0, follow each other without a gap, and end with the last byte. */
  predicate Chained(parts: map<int, Part>, n: nat, sizeBytes: nat) {
    && parts.Keys == UpTo(n)
    && (n == 0 <==> sizeBytes == 0)
    && (forall i {:trigger LinkedAt(parts, n, sizeBytes, i)} :: i in parts ==> LinkedAt(parts, n, sizeBytes, i))
  }

  lemma ExpectedRangesMeet(shape: Shape, i: int)
    requires i > 0 && ExpectedRange(shape, i).Some?
    ensures ExpectedRange(shape, i - 1).Some?
    ensures ExpectedRange(shape, i).value.startByte == ExpectedRange(shape, i - 1).value.endByte + 1
  {
    RangeBounds(shape, i);
    RangeBounds(shape, i - 1);
  }

  lemma PartIsChained(shape: Shape, parts: map<int, Part>, i: int)
    requires CompleteTable(shape, parts) && i in parts
    ensures var r := parts[i].range;
      && 0 <= r.startByte <= r.endByte && r.sizeBytes == r.endByte - r.startByte + 1
      && r.startByte == PreviousEnd(parts, i) + 1
      && (i == PartCount(shape) - 1 ==> r.endByte == shape.sizeBytes - 1)
  {
    assert PartMatches(shape, i, parts[i]);
    RangeBounds(shape, i);
    assert i > 0 <==> i - 1 in UpTo(PartCount(shape));
    if i > 0 {
      assert PartMatches(shape, i - 1, parts[i - 1]);
      ExpectedRangesMeet(shape, i);
    }
  }

  lemma NoPartsIfEmpty(shape: Shape)
    requires shape.sizeBytes == 0 || shape.chunkSizeBytes > 0
    ensures PartCount(shape) == 0 <==> shape.sizeBytes == 0
  {
    if shape.sizeBytes > 0 {
      CeilingBounds(shape.sizeBytes, shape.chunkSizeBytes, PartCount(shape));
    }
  }

  lemma CompleteTableChained(shape: Shape, parts: map<int, Part>)
    requires CompleteTable(shape, parts)
    ensures Chained(parts, PartCount(shape), shape.sizeBytes)
  {
    NoPartsIfEmpty(shape);
    forall i | i in parts ensures LinkedAt(parts, PartCount(shape), shape.sizeBytes, i) {
      PartIsChained(shape, parts, i);
    }
  }

  lemma ChainedAt(parts: map<int, Part>, n: nat, sizeBytes: nat, i: nat)
    requires Chained(parts, n, sizeBytes) && i < n
    ensures i in parts && (i > 0 <==> i - 1 in parts)
    ensures var r := parts[i].range;
      && r.startByte <= r.endByte && r.sizeBytes == r.endByte - r.startByte + 1
      && r.startByte == PreviousEnd(parts, i) + 1
      && (i == n - 1 ==> r.endByte == sizeBytes - 1)
  {
    assert i in UpTo(n) && (i > 0 ==> i - 1 in UpTo(n)) && -1 !in UpTo(n);
    assert LinkedAt(parts, n, sizeBytes, i);
  }

  lemma {:induction false} PrefixTotal(parts: map<int, Part>, n: nat, sizeBytes: nat, k: nat)
    requires Chained(parts, n, sizeBytes) && 0 < k <= n
    ensures TotalBytes(parts, k) == parts[k - 1].range.endByte + 1
    decreases k
  {
    ChainedAt(parts, n, sizeBytes, k - 1);
    if k > 1 {
      PrefixTotal(parts, n, sizeBytes, k - 1);
    } else {
      assert TotalBytes(parts, 0) == 0;
    }
    assert TotalBytes(parts, k) == TotalBytes(parts, k - 1) + parts[k - 1].range.sizeBytes;
  }

  lemma {:induction false} PrefixCovered(parts: map<int, Part>, n: nat, sizeBytes: nat, k: nat)
    requires Chained(parts, n, sizeBytes) && 0 < k <= n
    ensures forall b :: 0 <= b <= parts[k - 1].range.endByte ==> Covered(parts, b)
    decreases k
  {
    ChainedAt(parts, n, sizeBytes, k - 1);
    if k > 1 {
      PrefixCovered(parts, n, sizeBytes, k - 1);
    }
    forall b | 0 <= b <= parts[k - 1].range.endByte ensures Covered(parts, b) {
      if parts[k - 1].range.startByte <= b {
        assert Covers(parts[k - 1].range, b);
      }
    }
  }

  lemma {:induction false} PrefixOrdered(parts: map<int, Part>, n: nat, sizeBytes: nat, i: nat, k: nat)
    requires Chained(parts, n, sizeBytes) && i < k < n
    ensures i in parts && k in parts && parts[i].range.endByte < parts[k].range.startByte
    decreases k
  {
    ChainedAt(parts, n, sizeBytes, i);
    ChainedAt(parts, n, sizeBytes, k);
    ChainedAt(parts, n, sizeBytes, k - 1);
    assert PreviousEnd(parts, k) == parts[k - 1].range.endByte;
    if i < k - 1 {
      PrefixOrdered(parts, n, sizeBytes, i, k - 1);
    }
  }

  /** A complete part table tiles the file: no overlap, no gap, and the sizes add up. */
  lemma CompleteTableTiles(shape: Shape, parts: map<int, Part>)
    requires CompleteTable(shape, parts)
    ensures Tiles(parts, shape.sizeBytes)
  {
    CompleteTableChained(shape, parts);
    ChainedTiles(parts, PartCount(shape), shape.sizeBytes);
  }

  lemma ChainedTiles(parts: map<int, Part>, n: nat, sizeBytes: nat)
    requires Chained(parts, n, sizeBytes)
    ensures Tiles(parts, sizeBytes)
  {
    assert |parts| == |parts.Keys| == n;
    AllWithinFile(parts, n, sizeBytes);
    AllInOrder(parts, n, sizeBytes);
    if n > 0 {
      ChainedAt(parts, n, sizeBytes, n - 1);
      PrefixTotal(parts, n, sizeBytes, n);
      PrefixCovered(parts, n, sizeBytes, n);
    }
  }

  lemma AllWithinFile(parts: map<int, Part>, n: nat, sizeBytes: nat)
    requires Chained(parts, n, sizeBytes)
    ensures forall i :: i in parts ==>
      && 0 <= parts[i].range.startByte <= parts[i].range.endByte < sizeBytes
      && parts[i].range.sizeBytes == parts[i].range.endByte - parts[i].range.startByte + 1
  {
    forall i | i in parts
      ensures 0 <= parts[i].range.startByte <= parts[i].range.endByte < sizeBytes
      ensures parts[i].range.sizeBytes == parts[i].range.endByte - parts[i].range.startByte + 1
    {
      WithinFile(parts, n, sizeBytes, i);
      ChainedAt(parts, n, sizeBytes, i);
    }
  }

  lemma AllInOrder(parts: map<int, Part>, n: nat, sizeBytes: nat)
    requires Chained(parts, n, sizeBytes)
    ensures forall i, j :: i in parts && j in parts && i < j ==> parts[i].range.endByte < parts[j].range.startByte
  {
    forall i, j | i in parts && j in parts && i < j ensures parts[i].range.endByte < parts[j].range.startByte {
      PrefixOrdered(parts, n, sizeBytes, i, j);
    }
  }

  lemma WithinFile(parts: map<int, Part>, n: nat, sizeBytes: nat, i: nat)
    requires Chained(parts, n, sizeBytes) && i < n
    ensures i in parts && 0 <= parts[i].range.startByte <= parts[i].range.endByte < sizeBytes
  {
    ChainedAt(parts, n, sizeBytes, 0);
    ChainedAt(parts, n, sizeBytes, i);
    ChainedAt(parts, n, sizeBytes, n - 1);
    if i > 0 {
      PrefixOrdered(parts, n, sizeBytes, 0, i);
    }
    if i < n - 1 {
      PrefixOrdered(parts, n, sizeBytes, i, n - 1);
    }
  }

  /** The table that a listing was read from: indexes are unique, as the primary key makes them. */
  predicate ListsTable(listed: seq<ListedPart>, parts: map<int, Part>) {
    && (forall j :: 0 <= j < |listed| ==> listed[j].partIndex in parts && parts[listed[j].partIndex] == listed[j].part)
    && (forall j, k :: 0 <= j < k < |listed| ==> listed[j].partIndex != listed[k].partIndex)
    && |listed| == |parts|
  }

  /** The indexes of a listing. */
  function Indexes(listed: seq<ListedPart>): set<int> {
    set j | 0 <= j < |listed| :: listed[j].partIndex
  }

  lemma {:induction false} DistinctIndexCount(listed: seq<ListedPart>)
    requires forall j, k :: 0 <= j < k < |listed| ==> listed[j].partIndex != listed[k].partIndex
    ensures |Indexes(listed)| == |listed|
  {
    if |listed| > 0 {
      var front := listed[..|listed| - 1];
      DistinctIndexCount(front);
      assert Indexes(listed) == Indexes(front) + {listed[|listed| - 1].partIndex};
    }
  }

  lemma SubsetOfSameSize<T>(a: set<T>, b: set<T>)
    requires a <= b && |a| == |b|
    ensures a == b
  {
    if a != b {
      var x :| x in b && x !in a;
      assert |b - {x}| == |b| - 1;
      SubsetSize(a, b - {x});
    }
  }

  lemma SubsetSize<T>(a: set<T>, b: set<T>)
    requires a <= b
    ensures |a| <= |b|
  {
    if a != {} {
      var x :| x in a;
      SubsetSize(a - {x}, b - {x});
    }
  }

  /** A listing of a table covers all of its keys. */
  lemma ListingCoversTable(listed: seq<ListedPart>, parts: map<int, Part>)
    requires ListsTable(listed, parts)
    ensures forall i :: i in parts ==> i in Indexes(listed)
  {
    DistinctIndexCount(listed);
    assert |parts| == |parts.Keys|;
    SubsetOfSameSize(Indexes(listed), parts.Keys);
  }

  lemma OneMoreIndex(listed: seq<ListedPart>, n: nat)
    requires n < |listed|
    ensures Indexes(listed[..n + 1]) == Indexes(listed[..n]) + {listed[n].partIndex}
  {
    assert listed[..n + 1] == listed[..n] + [listed[n]];
  }

  lemma IndexTakenBefore(listed: seq<ListedPart>, n: nat)
    requires n < |listed| && listed[n].partIndex in Indexes(listed[..n])
    ensures exists j :: 0 <= j < n && listed[j].partIndex == listed[n].partIndex
  {
  }

  /**
   The completeness check, with its set of outstanding indexes. It accepts exactly the lists that
   hold every expected part once.
   */
  method AssertUploadSessionComplete(shape: Shape, listed: seq<ListedPart>) returns (ok: bool)
    ensures ok <==>
      && (shape.sizeBytes == 0 || shape.chunkSizeBytes > 0)
      && |listed| == PartCount(shape)
      && AllMatch(shape, listed, |listed|) && AllDistinct(listed, |listed|)
  {
    if shape.sizeBytes > 0 && shape.chunkSizeBytes <= 0 {
      return false;
    }
    var totalParts := PartCount(shape);
    if |listed| != totalParts {
      return false;
    }
    var fit, expectedIndexes := TakeExpected(shape, listed, UpTo(totalParts));
    if fit {
      AllExpected(shape, listed);
    } else {
      PartRejected(shape, listed);
    }
    return fit && expectedIndexes == {};
  }

  /** Each part is checked and its index taken out of the set, until one does not fit. */
  method TakeExpected(shape: Shape, listed: seq<ListedPart>, indexes: set<int>) returns (ok: bool, expectedIndexes: set<int>)
    ensures ok <==> AllMatch(shape, listed, |listed|) && AllFresh(listed, indexes, |listed|)
    ensures ok ==> expectedIndexes == indexes - Indexes(listed)
  {
    expectedIndexes := indexes;
    for n := 0 to |listed|
      invariant expectedIndexes == indexes - Indexes(listed[..n])
      invariant AllMatch(shape, listed, n) && AllFresh(listed, indexes, n)
    {
      OneMoreIndex(listed, n);
      var fits := PartIsExpected(shape, listed[n], expectedIndexes);
      if !fits {
        MisfitStays(shape, listed, indexes, n, |listed|);
        return false, expectedIndexes;
      }
      expectedIndexes := expectedIndexes - {listed[n].partIndex};
    }
    assert listed[..|listed|] == listed;
    return true, expectedIndexes;
  }

  /** No index of the first `n` parts is taken twice or foreign. */
  predicate AllFresh(listed: seq<ListedPart>, indexes: set<int>, n: nat)
    requires n <= |listed|
  {
    n > 0 ==> AllFresh(listed, indexes, n - 1) && listed[n - 1].partIndex in indexes - Indexes(listed[..n - 1])
  }

  lemma {:induction false} MisfitStays(shape: Shape, listed: seq<ListedPart>, indexes: set<int>, n: nat, m: nat)
    requires n < m <= |listed|
    requires !PartMatches(shape, listed[n].partIndex, listed[n].part) || listed[n].partIndex !in indexes - Indexes(listed[..n])
    ensures !(AllMatch(shape, listed, m) && AllFresh(listed, indexes, m))
    decreases m
  {
    if m > n + 1 {
      MisfitStays(shape, listed, indexes, n, m - 1);
    }
  }

  lemma {:induction false} AllFreshIsDistinct(listed: seq<ListedPart>, indexes: set<int>, n: nat)
    requires n <= |listed|
    ensures AllFresh(listed, indexes, n) <==> AllDistinct(listed, n) && Indexes(listed[..n]) <= indexes
    decreases n
  {
    if n > 0 {
      AllFreshIsDistinct(listed, indexes, n - 1);
      OneMoreIndex(listed, n - 1);
      if listed[n - 1].partIndex in Indexes(listed[..n - 1]) {
        IndexTakenBefore(listed, n - 1);
      }
    }
  }

  /** The first `n` parts are what their indexes stand for. */
  predicate AllMatch(shape: Shape, listed: seq<ListedPart>, n: nat)
    requires n <= |listed|
  {
    n > 0 ==> AllMatch(shape, listed, n - 1) && PartMatches(shape, listed[n - 1].partIndex, listed[n - 1].part)
  }

  lemma {:induction false} AllMatchIsEach(shape: Shape, listed: seq<ListedPart>, n: nat)
    requires n <= |listed|
    ensures AllMatch(shape, listed, n) <==> forall j :: 0 <= j < n ==> PartMatches(shape, listed[j].partIndex, listed[j].part)
  {
    if n > 0 {
      AllMatchIsEach(shape, listed, n - 1);
    }
  }

  predicate AllDistinct(listed: seq<ListedPart>, n: nat)
    requires n <= |listed|
  {
    forall j, k :: 0 <= j < k < n ==> listed[j].partIndex != listed[k].partIndex
  }

  /** The checks of one part, in their order. */
  method PartIsExpected(shape: Shape, listed: ListedPart, expectedIndexes: set<int>) returns (ok: bool)
    ensures ok <==> listed.partIndex in expectedIndexes && PartMatches(shape, listed.partIndex, listed.part)
  {
    var expected := ExpectedRange(shape, listed.partIndex);
    if expected.None? || listed.partIndex !in expectedIndexes {
      return false;
    }
    return listed.part.range == expected.value && (!shape.multipart || HasETag(listed.part));
  }

  lemma MatchingIndexes(shape: Shape, listed: seq<ListedPart>)
    requires (shape.sizeBytes == 0 || shape.chunkSizeBytes > 0) && AllMatch(shape, listed, |listed|)
    ensures Indexes(listed) <= UpTo(PartCount(shape))
  {
    AllMatchIsEach(shape, listed, |listed|);
    forall j | 0 <= j < |listed| ensures listed[j].partIndex in UpTo(PartCount(shape)) {
      assert PartMatches(shape, listed[j].partIndex, listed[j].part);
    }
  }

  lemma PartRejected(shape: Shape, listed: seq<ListedPart>)
    requires (shape.sizeBytes == 0 || shape.chunkSizeBytes > 0)
    requires !(AllMatch(shape, listed, |listed|) && AllFresh(listed, UpTo(PartCount(shape)), |listed|))
    ensures !(AllMatch(shape, listed, |listed|) && AllDistinct(listed, |listed|))
  {
    AllFreshIsDistinct(listed, UpTo(PartCount(shape)), |listed|);
    assert listed[..|listed|] == listed;
    if AllMatch(shape, listed, |listed|) {
      MatchingIndexes(shape, listed);
    }
  }

  /** As many different expected indexes as are expected are all of them. */
  lemma AllExpected(shape: Shape, listed: seq<ListedPart>)
    requires (shape.sizeBytes == 0 || shape.chunkSizeBytes > 0) && |listed| == PartCount(shape)
    requires AllMatch(shape, listed, |listed|) && AllFresh(listed, UpTo(PartCount(shape)), |listed|)
    ensures UpTo(PartCount(shape)) == Indexes(listed) && AllDistinct(listed, |listed|)
  {
    AllFreshIsDistinct(listed, UpTo(PartCount(shape)), |listed|);
    DistinctIndexCount(listed);
    MatchingIndexes(shape, listed);
    SubsetOfSameSize(Indexes(listed), UpTo(PartCount(shape)));
  }

  /** What the check accepts about a listing, it accepts about the table behind it, and conversely. */
  lemma AcceptedListingIffCompleteTable(shape: Shape, listed: seq<ListedPart>, parts: map<int, Part>)
    requires ListsTable(listed, parts)
    ensures CompleteTable(shape, parts) <==>
      && (shape.sizeBytes == 0 || shape.chunkSizeBytes > 0)
      && |listed| == PartCount(shape)
      && AllMatch(shape, listed, |listed|)
  {
    ListingCoversTable(listed, parts);
    AllMatchIsEach(shape, listed, |listed|);
    if CompleteTable(shape, parts) {
      assert |parts| == |parts.Keys|;
    }
    if
      && (shape.sizeBytes == 0 || shape.chunkSizeBytes > 0)
      && |listed| == PartCount(shape)
      && AllMatch(shape, listed, |listed|)
    {
      assert parts.Keys <= UpTo(PartCount(shape));
      assert |parts| == |parts.Keys|;
      SubsetOfSameSize(parts.Keys, UpTo(PartCount(shape)));
    }
  }
}
