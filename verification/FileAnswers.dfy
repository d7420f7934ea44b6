/**
 * What a read of a file should answer, and what this reader answers, both without any cache. They
 * differ only in a tail that cannot be read.
 */
module FileAnswers {
  import opened Words
  import opened Buffers
  import opened Bytes
  import opened Disk
  import opened Division
  import opened FileLayout
  import opened FileContents

  // The number of bytes that a read of `size` bytes at `offset` covers.
  function Readable(f: File, offset: nat, size: nat): nat {
    if offset >= f.size then 0 else Least(size, f.size - offset)
  }

  // Some byte from a up to b lies in block i; in the tail.
  ghost predicate Meets(w: World, i: nat, a: nat, b: nat) {
    a < b && Begin(w.blockSize, i) < b && a < Begin(w.blockSize, i) + w.blockSize
  }

  ghost predicate MeetsTail(w: World, f: File, a: nat, b: nat) {
    a < b && Fragmented(f) && Begin(w.blockSize, |f.blockSizes|) < b
  }

  // Every block met by the bytes from a up to b expands.
  ghost predicate AllExpand(w: World, f: File, a: nat, b: nat) {
    forall i :: 0 <= i < |f.blockSizes| && Meets(w, i, a, b) ==> Block(w, f, i).Ok?
  }

  // The error of the first block from k on that is met and does not expand.
  ghost function FirstFailure(w: World, f: File, a: nat, b: nat, k: nat): Option<Error>
    requires k <= |f.blockSizes|
    decreases |f.blockSizes| - k
  {
    if k == |f.blockSizes| then None
    else if Meets(w, k, a, b) && Block(w, f, k).Err? then Some(Block(w, f, k).error)
    else FirstFailure(w, f, a, b, k + 1)
  }

  lemma {:induction false} NoFailure(w: World, f: File, a: nat, b: nat, k: nat)
    requires k <= |f.blockSizes|
    requires forall i :: k <= i < |f.blockSizes| && Meets(w, i, a, b) ==> Block(w, f, i).Ok?
    ensures FirstFailure(w, f, a, b, k) == None
    decreases |f.blockSizes| - k
  {
    if k < |f.blockSizes| {
      NoFailure(w, f, a, b, k + 1);
    }
  }

  lemma {:induction false} FailureIs(w: World, f: File, a: nat, b: nat, i: nat, k: nat)
    requires k <= i < |f.blockSizes| && Meets(w, i, a, b) && Block(w, f, i).Err?
    requires forall j :: k <= j < i && Meets(w, j, a, b) ==> Block(w, f, j).Ok?
    ensures FirstFailure(w, f, a, b, k) == Some(Block(w, f, i).error)
    decreases i - k
  {
    if k < i {
      FailureIs(w, f, a, b, i, k + 1);
    }
  }

  lemma ExpandJoins(w: World, f: File, a: nat, p: nat, b: nat)
    requires w.blockSize > 0 && a <= p <= b && AllExpand(w, f, a, p) && AllExpand(w, f, p, b)
    ensures AllExpand(w, f, a, b)
  {
    forall i | 0 <= i < |f.blockSizes| && Meets(w, i, a, b)
      ensures Block(w, f, i).Ok?
    {
      assert Meets(w, i, a, p) || Meets(w, i, p, b);
    }
  }

  // A read that got from a to p before block i, which holds p, turned out not to expand.
  lemma FailsFirst(w: World, f: File, a: nat, p: nat, b: nat, i: nat)
    requires a <= p < b && AllExpand(w, f, a, p) && i < |f.blockSizes| && Block(w, f, i).Err?
    requires Begin(w.blockSize, i) <= p < Begin(w.blockSize, i) + w.blockSize
    ensures FirstFailure(w, f, a, b, 0) == Some(Block(w, f, i).error)
  {
    forall j | 0 <= j < i && Meets(w, j, a, b)
      ensures Block(w, f, j).Ok?
    {
      BeginIncreases(w.blockSize, j, i);
      assert Meets(w, j, a, p);
    }
    FailureIs(w, f, a, b, i, 0);
  }

  // What this reader answers when no allocation fails.
  ghost function ServedAnswer(w: World, f: File, offset: nat, size: nat): Result<bytes>
    requires WellFormed(w, f)
  {
    var n := Readable(f, offset, size);
    if n == 0 then Ok([])
    else match FirstFailure(w, f, offset, offset + n, 0)
      case Some(e) => Err(e)
      case None => ContentsLength(w, f); Ok(Contents(w, f)[offset..offset + n])
  }

  // What it should answer: the bytes of the blocks and of the tail, or the error of the first part
  // of these that cannot be read.
  ghost function StrictAnswer(w: World, f: File, offset: nat, size: nat): Result<bytes>
    requires WellFormed(w, f)
  {
    var n := Readable(f, offset, size);
    if n == 0 then Ok([])
    else match FirstFailure(w, f, offset, offset + n, 0)
      case Some(e) => Err(e)
      case None =>
        BlocksLength(w, f, |f.blockSizes|);
        if !MeetsTail(w, f, offset, offset + n) then Ok(Blocks(w, f, |f.blockSizes|)[offset..offset + n])
        else match TailBytes(w, f)
          case Err(e) => Err(e)
          case Ok(tail) =>
            ContentsLength(w, f);
            Ok((Blocks(w, f, |f.blockSizes|) + tail)[offset..offset + n])
  }

  lemma TailIsReadable(w: World, f: File)
    requires WellFormed(w, f) && Fragmented(f)
    ensures FragmentBlock(w, f.fragment).Ok? ==> TailBytes(w, f).Ok?
    ensures FragmentBlock(w, f.fragment).Err? ==> TailBytes(w, f) == Err(FragmentBlock(w, f.fragment).error)
  {
  }

  // The reader answers what it should exactly when the range ends before the tail, or the fragment
  // block can be read, or the read fails in a block before that.
  lemma AnswersAgree(w: World, f: File, offset: nat, size: nat)
    requires WellFormed(w, f)
    ensures ServedAnswer(w, f, offset, size) == StrictAnswer(w, f, offset, size) <==>
      var end := offset + Readable(f, offset, size);
      || !MeetsTail(w, f, offset, end) || FragmentBlock(w, f.fragment).Ok?
      || FirstFailure(w, f, offset, end, 0).Some?
  {
    var n := Readable(f, offset, size);
    if n > 0 && FirstFailure(w, f, offset, offset + n, 0).None? {
      BlocksLength(w, f, |f.blockSizes|);
      ContentsLength(w, f);
      if MeetsTail(w, f, offset, offset + n) {
        TailIsReadable(w, f);
      } else {
        BeforeTail(w, f, offset, offset + n);
      }
    }
  }

  lemma BeforeTail(w: World, f: File, a: nat, b: nat)
    requires WellFormed(w, f) && a < b <= f.size && !MeetsTail(w, f, a, b)
    ensures b <= |Blocks(w, f, |f.blockSizes|)| && b <= |Contents(w, f)|
    ensures Contents(w, f)[a..b] == Blocks(w, f, |f.blockSizes|)[a..b]
  {
    BlocksLength(w, f, |f.blockSizes|);
    ContentsLength(w, f);
    SliceOfFirst(Blocks(w, f, |f.blockSizes|), if Fragmented(f) then Tail(w, f) else [], a, b);
  }

  lemma NothingMetInTail(w: World, f: File, a: nat, b: nat)
    requires a >= Begin(w.blockSize, |f.blockSizes|)
    ensures FirstFailure(w, f, a, b, 0) == None
  {
    forall i | 0 <= i < |f.blockSizes|
      ensures !Meets(w, i, a, b)
    {
      BeginIncreases(w.blockSize, i, |f.blockSizes|);
    }
    NoFailure(w, f, a, b, 0);
  }

  lemma UnreadableTailIsZeros(w: World, f: File, a: nat, b: nat)
    requires WellFormed(w, f) && Fragmented(f) && FragmentBlock(w, f.fragment).Err?
    requires Begin(w.blockSize, |f.blockSizes|) <= a <= b <= f.size
    ensures b <= |Contents(w, f)| && Contents(w, f)[a..b] == Zeros(b - a)
  {
    BlocksLength(w, f, |f.blockSizes|);
    ContentsLength(w, f);
    var p := Begin(w.blockSize, |f.blockSizes|);
    TailInContents(w, f, a - p, b - p);
    assert Tail(w, f)[a - p..b - p] == Zeros(b - a);
  }

  // An unreadable tail, wanted from some byte on, is answered with zeros where an error is due.
  lemma UnreadableTail(w: World, f: File, offset: nat, size: nat)
    requires WellFormed(w, f) && Fragmented(f) && FragmentBlock(w, f.fragment).Err?
    requires offset >= Begin(w.blockSize, |f.blockSizes|) && Readable(f, offset, size) > 0
    ensures ServedAnswer(w, f, offset, size) == Ok(Zeros(Readable(f, offset, size)))
    ensures StrictAnswer(w, f, offset, size) == Err(FragmentBlock(w, f.fragment).error)
  {
    var end := offset + Readable(f, offset, size);
    NothingMetInTail(w, f, offset, end);
    UnreadableTailIsZeros(w, f, offset, end);
    TailIsReadable(w, f);
  }

  // An image of one byte and a file of two, all in a fragment that the image has no table for.
  lemma UnreadableTailRun()
    ensures var w := World(Disk([7], (_, _) => None), 4096, FragmentTable(true, []));
      var f := File(2, 0, 0, 0, []);
      && WellFormed(w, f) && FragmentBlock(w, 0) == Err(NotFound)
      && ServedAnswer(w, f, 0, 2) == Ok([0, 0]) && StrictAnswer(w, f, 0, 2) == Err(NotFound)
  {
    var w := World(Disk([7], (_, _) => None), 4096, FragmentTable(true, []));
    var f := File(2, 0, 0, 0, []);
    UnreadableTail(w, f, 0, 2);
    assert Zeros(2) == [0, 0];
  }
}
