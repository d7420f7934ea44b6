/** A file as a writer of images stores it: reading gives back its data. */
module FileStorage {
  import opened Words
  import opened Buffers
  import opened Bytes
  import opened Disk
  import opened Division
  import opened FileLayout
  import opened FileContents
  import opened FileAnswers
  import opened Metadata

  // A writer stores the part in this form under this word: its length, and 2^24 more if the form is the
  // part itself and not what it is compressed to. The library restores what was compressed into a buffer
  // of `room` bytes.
  ghost predicate HasForm(d: Disk, deflate: bytes -> bytes, encoded: uint32, room: nat, part: bytes, form: bytes) {
    && 0 < |form| < 0x100_0000
    && (|| (encoded == |form| + 0x100_0000 && form == part)
        || (encoded == |form| && form == deflate(part) && d.inflate(form, room) == Some(part)))
  }

  // What the word says, whatever its upper bits are.
  lemma WordSays(size: nat, flag: nat, upper: nat)
    requires size < 0x100_0000 && flag < 2 && upper < 0x80
    ensures var word := size + 0x100_0000 * flag + 0x200_0000 * upper;
      word < WORD_32 && StoredSize(word) == size && (StoredRaw(word) <==> flag == 1)
  {
    var word := size + 0x100_0000 * flag + 0x200_0000 * upper;
    assert word % 0x100_0000 == size;
    assert word / 0x100_0000 == flag + 2 * upper;
  }

  lemma FormIsExpanded(d: Disk, deflate: bytes -> bytes, pos: nat, encoded: uint32, room: nat, part: bytes, form: bytes)
    requires HasForm(d, deflate, encoded, room, part, form) && PartAt(d.image, pos, form) && |part| <= room
    ensures encoded != 0 && StoredSize(encoded) == |form| && DataBlock(d, pos, encoded, room) == Ok(part)
  {
    WordSays(|form|, if encoded == |form| then 0 else 1, 0);
  }

  // The part is a hole, of which nothing is stored, or has a stored form.
  ghost predicate StoresPart(w: World, deflate: bytes -> bytes, encoded: uint32, part: bytes, form: bytes) {
    if encoded == 0 then part == Zeros(|part|) && form == []
    else HasForm(w.disk, deflate, encoded, w.blockSize, part, form)
  }

  // The block is stored as the fragment block of this index.
  ghost predicate FragmentStored(w: World, deflate: bytes -> bytes, index: uint32, block: bytes, form: bytes) {
    && index < NO_FRAGMENT && w.table.loaded && index < |w.table.entries| && |block| <= w.blockSize
    && HasForm(w.disk, deflate, w.table.entries[index].size, w.blockSize, block, form)
    && PartAt(w.disk.image, w.table.entries[index].start, form)
  }

  // A fragment block has the tail at the offset.
  ghost predicate FragmentHolds(w: World, deflate: bytes -> bytes, index: uint32, offset: uint32, tail: bytes) {
    exists block, form :: FragmentStored(w, deflate, index, block, form) && PartAt(block, offset, tail)
  }

  lemma FragmentExpands(w: World, deflate: bytes -> bytes, index: uint32, block: bytes, form: bytes)
    requires FragmentStored(w, deflate, index, block, form)
    ensures FragmentBlock(w, index) == Ok(block)
  {
    var e := w.table.entries[index];
    FormIsExpanded(w.disk, deflate, e.start, e.size, w.blockSize, block, form);
  }

  // Block i stores its share of the data of a file.
  ghost predicate StoresShare(w: World, deflate: bytes -> bytes, f: File, data: bytes, i: nat, form: bytes)
    requires i < |f.blockSizes|
  {
    var p, n := Begin(w.blockSize, i), Share(w, f, i);
    p + n <= |data| && StoresPart(w, deflate, f.blockSizes[i], data[p..p + n], form)
  }

  // The forms of the blocks are stored one after the other from the file's start on.
  ghost predicate StoresBlocks(w: World, deflate: bytes -> bytes, f: File, data: bytes, forms: seq<bytes>) {
    && |forms| == |f.blockSizes|
    && (forall i :: 0 <= i < |forms| ==> StoresShare(w, deflate, f, data, i, forms[i]))
    && PartAt(w.disk.image, f.start, Joined(forms)) && f.start + |Joined(forms)| < WORD_64
  }

  ghost predicate StoresTail(w: World, deflate: bytes -> bytes, f: File, data: bytes) {
    var p := Begin(w.blockSize, |f.blockSizes|);
    p <= |data| && FragmentHolds(w, deflate, f.fragment, f.fragmentOffset, data[p..])
  }

  // The file's inode counts and places the data as a writer does.
  ghost predicate StoresFile(w: World, deflate: bytes -> bytes, f: File, data: bytes) {
    && w.blockSize > 0 && f.size == |data| && |f.blockSizes| == Count(w, f) < WORD_32
    && (exists forms :: StoresBlocks(w, deflate, f, data, forms))
    && (Fragmented(f) ==> StoresTail(w, deflate, f, data))
  }

  lemma {:induction false} NextForm(forms: seq<bytes>, i: nat)
    requires i < |forms|
    ensures DataBefore(forms, i + 1) == DataBefore(forms, i) + |forms[i]|
    ensures PartAt(Joined(forms), DataBefore(forms, i), forms[i])
  {
    if i > 0 {
      NextForm(forms[1..], i - 1);
      var rest, p := Joined(forms[1..]), DataBefore(forms[1..], i - 1);
      assert (forms[0] + rest)[|forms[0]| + p..|forms[0]| + p + |forms[i]|] == rest[p..p + |forms[i]|];
    }
  }

  // The words of the blocks tell the lengths of their forms.
  ghost predicate Lengths(f: File, forms: seq<bytes>) {
    |forms| == |f.blockSizes| && forall i :: 0 <= i < |forms| ==> StoredSize(f.blockSizes[i]) == |forms[i]|
  }

  lemma FormLengths(w: World, deflate: bytes -> bytes, f: File, data: bytes, forms: seq<bytes>)
    requires StoresBlocks(w, deflate, f, data, forms)
    ensures Lengths(f, forms)
  {
    forall i | 0 <= i < |forms|
      ensures StoredSize(f.blockSizes[i]) == |forms[i]|
    {
      assert StoresShare(w, deflate, f, data, i, forms[i]);
      WordSays(|forms[i]|, if f.blockSizes[i] == |forms[i]| then 0 else 1, 0);
    }
  }

  // Block i is looked for where its form is.
  lemma {:induction false} FormIsFound(f: File, forms: seq<bytes>, i: nat)
    requires Lengths(f, forms) && f.start + |Joined(forms)| < WORD_64 && i <= |forms|
    ensures DataBefore(forms, i) <= |Joined(forms)| && PosAt(f, i) == f.start + DataBefore(forms, i)
  {
    if i > 0 {
      FormIsFound(f, forms, i - 1);
      NextForm(forms, i - 1);
      NextPosition(f, i - 1);
    }
  }

  lemma NextPosition(f: File, i: nat)
    requires i < |f.blockSizes| && PosAt(f, i) + StoredSize(f.blockSizes[i]) < WORD_64
    ensures PosAt(f, i + 1) == PosAt(f, i) + StoredSize(f.blockSizes[i])
  {
  }

  ghost predicate PieceOfData(w: World, f: File, data: bytes, i: nat)
    requires i < |f.blockSizes|
  {
    PartAt(data, Begin(w.blockSize, i), Piece(w, f, i))
  }

  lemma PieceIsShare(w: World, deflate: bytes -> bytes, f: File, data: bytes, i: nat, form: bytes)
    requires w.blockSize > 0 && i < |f.blockSizes| && StoresShare(w, deflate, f, data, i, form)
    requires PartAt(w.disk.image, PosAt(f, i), form)
    ensures PieceOfData(w, f, data, i)
    ensures Block(w, f, i).Ok? && (f.blockSizes[i] != 0 ==> |Block(w, f, i).value| == Share(w, f, i))
  {
    var p, n := Begin(w.blockSize, i), Share(w, f, i);
    var part := data[p..p + n];
    assert |part| == n <= w.blockSize;
    if f.blockSizes[i] != 0 {
      FormIsExpanded(w.disk, deflate, PosAt(f, i), f.blockSizes[i], w.blockSize, part, form);
    }
  }

  lemma StoredBlock(w: World, deflate: bytes -> bytes, f: File, data: bytes, forms: seq<bytes>, i: nat)
    requires w.blockSize > 0 && StoresBlocks(w, deflate, f, data, forms) && i < |forms|
    ensures PieceOfData(w, f, data, i)
    ensures Block(w, f, i).Ok? && (f.blockSizes[i] != 0 ==> |Block(w, f, i).value| == Share(w, f, i))
  {
    FormLengths(w, deflate, f, data, forms);
    FormIsFound(f, forms, i);
    NextForm(forms, i);
    PartOfPart(w.disk.image, f.start, Joined(forms), DataBefore(forms, i), forms[i]);
    assert StoresShare(w, deflate, f, data, i, forms[i]);
    PieceIsShare(w, deflate, f, data, i, forms[i]);
  }

  lemma PartOfPart(c: bytes, p: nat, b: bytes, q: nat, a: bytes)
    requires PartAt(c, p, b) && PartAt(b, q, a)
    ensures PartAt(c, p + q, a)
  {
    SliceOfSlice(c, p, |b|, q, q + |a|);
  }

  lemma PrefixGrows<T>(c: seq<T>, a: seq<T>, b: seq<T>)
    requires PartAt(c, 0, a) && PartAt(c, |a|, b)
    ensures PartAt(c, 0, a + b)
  {
  }

  lemma BlocksGrow(w: World, f: File, data: bytes, k: nat)
    requires w.blockSize > 0 && k < |f.blockSizes| == Count(w, f)
    requires PartAt(data, 0, Blocks(w, f, k)) && PieceOfData(w, f, data, k)
    ensures PartAt(data, 0, Blocks(w, f, k + 1))
  {
    BlocksLength(w, f, k);
    PrefixGrows(data, Blocks(w, f, k), Piece(w, f, k));
  }

  lemma {:induction false} BlocksAreData(w: World, f: File, data: bytes, k: nat)
    requires w.blockSize > 0 && k <= |f.blockSizes| == Count(w, f)
    requires forall i :: 0 <= i < k ==> PieceOfData(w, f, data, i)
    ensures PartAt(data, 0, Blocks(w, f, k))
  {
    if k > 0 {
      BlocksAreData(w, f, data, k - 1);
      BlocksGrow(w, f, data, k - 1);
    }
  }

  lemma TailIsData(w: World, deflate: bytes -> bytes, f: File, data: bytes)
    requires w.blockSize > 0 && Fragmented(f) && StoresTail(w, deflate, f, data)
    requires f.size == |data| && |f.blockSizes| == Count(w, f)
    ensures FragmentBlock(w, f.fragment).Ok?
    ensures f.fragmentOffset + TailSize(w, f) <= |FragmentBlock(w, f.fragment).value| <= w.blockSize
    ensures PartAt(data, Begin(w.blockSize, |f.blockSizes|), Tail(w, f))
  {
    var tail := data[Begin(w.blockSize, |f.blockSizes|)..];
    Recompose(f.size, w.blockSize);
    assert |tail| == TailSize(w, f);
    var block, form :| FragmentStored(w, deflate, f.fragment, block, form) && PartAt(block, f.fragmentOffset, tail);
    FragmentExpands(w, deflate, f.fragment, block, form);
  }

  lemma WholeIsData(w: World, f: File, data: bytes)
    requires w.blockSize > 0 && f.size == |data| && |f.blockSizes| == Count(w, f)
    requires PartAt(data, 0, Blocks(w, f, |f.blockSizes|))
    requires Fragmented(f) ==> PartAt(data, Begin(w.blockSize, |f.blockSizes|), Tail(w, f))
    ensures Contents(w, f) == data
  {
    var b := Blocks(w, f, |f.blockSizes|);
    BlocksLength(w, f, |f.blockSizes|);
    ContentsLength(w, f);
    if Fragmented(f) {
      PrefixGrows(data, b, Tail(w, f));
    }
  }

  // The flat contents of a stored file are its data.
  lemma StoredContents(w: World, deflate: bytes -> bytes, f: File, data: bytes)
    requires StoresFile(w, deflate, f, data)
    ensures WellFormed(w, f) && Contents(w, f) == data
    ensures forall i :: 0 <= i < |f.blockSizes| ==> Block(w, f, i).Ok?
    ensures Fragmented(f) ==> FragmentBlock(w, f.fragment).Ok?
  {
    var forms :| StoresBlocks(w, deflate, f, data, forms);
    forall i | 0 <= i < |f.blockSizes|
      ensures PieceOfData(w, f, data, i)
      ensures Block(w, f, i).Ok? && (f.blockSizes[i] != 0 ==> |Block(w, f, i).value| == Share(w, f, i))
    {
      StoredBlock(w, deflate, f, data, forms, i);
    }
    BlocksAreData(w, f, data, |f.blockSizes|);
    if Fragmented(f) {
      TailIsData(w, deflate, f, data);
    }
    WholeIsData(w, f, data);
  }

  // What a read of a range of the data is due.
  function RangeOf(data: bytes, offset: nat, size: nat): bytes {
    if offset >= |data| then [] else data[offset..offset + Least(size, |data| - offset)]
  }

  // Every read of a stored file gives the bytes that were stored.
  lemma StoredFileIsRead(w: World, deflate: bytes -> bytes, f: File, data: bytes, offset: nat, size: nat)
    requires StoresFile(w, deflate, f, data)
    ensures WellFormed(w, f)
    ensures ServedAnswer(w, f, offset, size) == Ok(RangeOf(data, offset, size)) == StrictAnswer(w, f, offset, size)
  {
    StoredContents(w, deflate, f, data);
    ContentsAreServed(w, f, offset, size);
    AnswersAgree(w, f, offset, size);
  }

  lemma ContentsAreServed(w: World, f: File, offset: nat, size: nat)
    requires WellFormed(w, f) && forall i :: 0 <= i < |f.blockSizes| ==> Block(w, f, i).Ok?
    ensures |Contents(w, f)| == f.size
    ensures ServedAnswer(w, f, offset, size) == Ok(RangeOf(Contents(w, f), offset, size))
  {
    ContentsLength(w, f);
    var n := Readable(f, offset, size);
    NoFailure(w, f, offset, offset + n, 0);
    assert RangeOf(Contents(w, f), offset, size) == if n == 0 then [] else Contents(w, f)[offset..offset + n];
  }
}
