/** A database file as its bytes: whole pages, a possible partial tail, and what a write at
    a page offset or a change of length does to the other pages. */
module PageFile {
  import opened Base
  import opened Page

  function CompletePages(file: Bytes): nat { |file| / PAGE_SIZE }

  predicate HasPartialTail(file: Bytes) { |file| % PAGE_SIZE != 0 }

  function PageAt(file: Bytes, id: nat): PageBytes
    requires id < CompletePages(file)
  {
    file[id * PAGE_SIZE..(id + 1) * PAGE_SIZE]
  }

  /** The bytes of the file, all or some, that lie where page `id` belongs. */
  function Extent(file: Bytes, id: nat): Bytes {
    if |file| <= id * PAGE_SIZE then []
    else if |file| < (id + 1) * PAGE_SIZE then file[id * PAGE_SIZE..]
    else file[id * PAGE_SIZE..(id + 1) * PAGE_SIZE]
  }

  /** Writing `data` at `offset`, extending the file when it ends sooner. */
  function WriteAt(file: Bytes, offset: nat, data: Bytes): Bytes
    requires offset <= |file|
  {
    file[..offset] + data + (if offset + |data| <= |file| then file[offset + |data|..] else [])
  }

  /** `set_len`: cut, or extend with zero bytes. */
  function Resize(file: Bytes, length: nat): (resized: Bytes)
    ensures |resized| == length
  {
    if length <= |file| then file[..length] else file + seq(length - |file|, _ => 0)
  }

  lemma WritePage(file: Bytes, id: nat, data: Bytes)
    requires id <= CompletePages(file) && |data| <= PAGE_SIZE
    ensures id * PAGE_SIZE <= |file|
    ensures var written := WriteAt(file, id * PAGE_SIZE, data);
            && |file| <= |written|
            && CompletePages(file) <= CompletePages(written)
            && CompletePages(written) <= (if id < CompletePages(file) then CompletePages(file) else id + 1)
            && (|data| == PAGE_SIZE && !HasPartialTail(file) ==> !HasPartialTail(written))
            && (forall other | 0 <= other < CompletePages(file) && other != id ::
                PageAt(written, other) == PageAt(file, other))
            && (|data| == PAGE_SIZE ==> id < CompletePages(written) && PageAt(written, id) == data)
  {
    var offset := id * PAGE_SIZE;
    var written := WriteAt(file, offset, data);
    forall other: nat | other < CompletePages(file) && other != id
      ensures PageAt(written, other) == PageAt(file, other)
    {
      var from := other * PAGE_SIZE;
      assert other < id ==> from + PAGE_SIZE <= offset;
      assert id < other ==> offset + PAGE_SIZE <= from;
      assert forall k | from <= k < from + PAGE_SIZE :: written[k] == file[k];
    }
    if |data| == PAGE_SIZE {
      assert forall k | offset <= k < offset + PAGE_SIZE :: written[k] == data[k - offset];
    }
  }

  /** A write at a page of a file without a partial tail leaves every byte outside that page. */
  lemma WriteKeepsOtherExtents(file: Bytes, id: nat, data: Bytes, other: nat)
    requires !HasPartialTail(file) && id <= CompletePages(file) && |data| <= PAGE_SIZE && other != id
    ensures id * PAGE_SIZE <= |file|
    ensures Extent(WriteAt(file, id * PAGE_SIZE, data), other) == Extent(file, other)
  {
    var offset, from := id * PAGE_SIZE, other * PAGE_SIZE;
    var written := WriteAt(file, offset, data);
    assert |file| == CompletePages(file) * PAGE_SIZE;
    assert other < id ==> from + PAGE_SIZE <= offset;
    assert id < other ==> offset + PAGE_SIZE <= from;
    assert |written| != |file| ==> id == CompletePages(file) && |written| <= offset + PAGE_SIZE;
    assert forall k | from <= k < from + PAGE_SIZE && k < |file| :: written[k] == file[k];
  }

  lemma WholeExtentIsPage(file: Bytes, id: nat)
    ensures |Extent(file, id)| == PAGE_SIZE <==> id < CompletePages(file)
    ensures id < CompletePages(file) ==> PageAt(file, id) == Extent(file, id)
  {
  }

  lemma ResizeKeepsPages(file: Bytes, count: nat)
    ensures CompletePages(Resize(file, count * PAGE_SIZE)) == count && !HasPartialTail(Resize(file, count * PAGE_SIZE))
    ensures forall id | 0 <= id < count && id < CompletePages(file) ::
              PageAt(Resize(file, count * PAGE_SIZE), id) == PageAt(file, id)
  {
  }

  /** A file without a partial tail is determined by its pages. */
  lemma PagesDetermineFile(a: Bytes, b: Bytes)
    requires !HasPartialTail(a) && !HasPartialTail(b) && CompletePages(a) == CompletePages(b)
    requires forall id | 0 <= id < CompletePages(a) :: PageAt(a, id) == PageAt(b, id)
    ensures a == b
  {
    assert |a| == CompletePages(a) * PAGE_SIZE && |b| == CompletePages(b) * PAGE_SIZE;
    forall k | 0 <= k < |a| ensures a[k] == b[k] {
      var id := k / PAGE_SIZE;
      assert a[k] == PageAt(a, id)[k - id * PAGE_SIZE];
      assert b[k] == PageAt(b, id)[k - id * PAGE_SIZE];
    }
  }
}
