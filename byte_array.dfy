/** The append-only byte sink of the encoder (gif.worker.js:598-647): bytes are
    stored in 4096-byte pages that are allocated only when the current page
    is full. `Contents` is the sequence of every byte written so far; `Valid`
    ties it to the pages, so reading the full pages in order followed by the
    first `cursor` bytes of the last page gives back exactly what was written. */
module ByteArrays {
  import opened Common

  const PageSize := 4096

  class ByteArray {
    var page: int
    var pages: seq<array<Byte>>
    var cursor: int

    ghost var Contents: seq<Byte>
    ghost var Repr: set<object>

    ghost predicate Valid()
      reads this, Repr
    {
      && this in Repr
      && (forall p :: p in pages ==> p in Repr)
      && 0 <= page && |pages| == page + 1
      && 0 <= cursor <= PageSize
      && (forall i :: 0 <= i < |pages| ==> pages[i].Length == PageSize)
      && (forall i, j :: 0 <= i < j < |pages| ==> pages[i] != pages[j])
      && |Contents| == page * PageSize + cursor
      // every full page holds its slice of the written bytes ...
      && (forall p, k :: 0 <= p < page && 0 <= k < PageSize ==> pages[p][k] == Contents[p * PageSize + k])
      // ... the last page holds the rest, and is still zero past the cursor
      && (forall k :: 0 <= k < cursor ==> pages[page][k] == Contents[page * PageSize + k])
      && (forall k :: cursor <= k < PageSize ==> pages[page][k] == 0)
    }

    /** The byte at position `k` of the stream, read back from the pages. */
    ghost function ReadBack(k: int): Byte
      reads this, Repr
      requires Valid() && 0 <= k < |Contents|
    {
      pages[k / PageSize][k % PageSize]
    }

    constructor ()
      ensures Valid() && fresh(Repr)
      ensures Contents == [] && page == 0 && cursor == 0
    {
      page := -1;
      pages := [];
      cursor := 0;
      Contents := [];
      Repr := {this};
      new;
      NewPage();
    }

    /** Appends a fresh zero-filled page and moves the cursor to its start.
        It is called by the constructor, when there is no page yet, and by
        WriteByte, when the current page is full. */
    method NewPage()
      requires this in Repr
      requires (page == -1 && pages == [] && Contents == [] && Repr == {this}) || (Valid() && cursor == PageSize)
      modifies this
      ensures Valid() && fresh(Repr - old(Repr))
      ensures page == old(page) + 1 && cursor == 0
      ensures |pages| == |old(pages)| + 1 && pages[..|old(pages)|] == old(pages)
      ensures Contents == old(Contents)
    {
      var newPage := new Byte[PageSize](_ => 0);
      page := page + 1;
      pages := pages + [newPage];
      cursor := 0;
      Repr := Repr + {newPage};
    }

    /** Stores `val` (as a Uint8Array store converts it) after all bytes written
        so far; a page is added only when the current one is full. */
    method WriteByte(val: int)
      requires Valid() == true
      modifies Repr
      ensures Valid() && fresh(Repr - old(Repr))
      ensures Contents == old(Contents) + [ToUint8(val)]
      ensures |pages| == |old(pages)| + (if old(cursor) == PageSize then 1 else 0)
      ensures pages[..|old(pages)|] == old(pages)
    {
      if cursor >= PageSize {
        NewPage();
      }
      pages[page][cursor] := ToUint8(val);
      Contents := Contents + [ToUint8(val)];
      cursor := cursor + 1;
    }

    /** Writes one byte per character: its code, truncated to 8 bits. */
    method WriteUTFBytes(s: string)
      requires Valid() == true
      modifies Repr
      ensures Valid() && fresh(Repr - old(Repr))
      ensures Contents == old(Contents) + seq(|s|, i requires 0 <= i < |s| => ToUint8(s[i] as int))
    {
      var l, i := |s|, 0;
      while i < l
        invariant 0 <= i <= l
        invariant Valid() && fresh(Repr - old(Repr))
        invariant Contents == old(Contents) + seq(i, j requires 0 <= j < i => ToUint8(s[j] as int))
      {
        WriteByte(s[i] as int);
        i := i + 1;
      }
    }

    /** Writes the elements of `a` from `offset` up to, but not including,
        `length`. As in the source, a `length` of 0 (or omitted) stands for
        the whole array and an `offset` of 0 (or omitted) for its start; so
        `length` is an end index, not a count. Positions outside `a` read as
        `undefined` and are stored as 0. */
    method WriteBytes(a: seq<int>, offset: int, length: int)
      requires Valid() == true
      modifies Repr
      ensures Valid() && fresh(Repr - old(Repr))
      ensures Contents == old(Contents) + BytesWritten(a, offset, length)
    {
      var l := if length != 0 then length else |a|;
      var i := offset;
      while i < l
        invariant Valid() && fresh(Repr - old(Repr))
        invariant offset <= i <= Max(l, offset)
        invariant Contents == old(Contents) + StoredRange(a, offset, i - offset)
        decreases l - i
      {
        WriteByte(ElemOrZero(a, i));
        i := i + 1;
      }
    }
  }

  /** What `writeBytes(a, offset, length)` appends. */
  function BytesWritten(a: seq<int>, offset: int, length: int): (r: seq<Byte>)
    ensures |r| == Max(0, (if length != 0 then length else |a|) - offset)
    ensures forall k :: 0 <= k < |r| ==> r[k] == ToUint8(ElemOrZero(a, offset + k))
  {
    StoredRange(a, offset, Max(0, (if length != 0 then length else |a|) - offset))
  }

  /** The `n` bytes stored from `a[offset..offset + n]`. */
  function StoredRange(a: seq<int>, offset: int, n: nat): (r: seq<Byte>)
    ensures |r| == n
    ensures forall k :: 0 <= k < n ==> r[k] == ToUint8(ElemOrZero(a, offset + k))
  {
    if n == 0 then [] else StoredRange(a, offset, n - 1) + [ToUint8(ElemOrZero(a, offset + n - 1))]
  }

  /** Writing a whole array of bytes appends exactly that array. */
  lemma WholeArrayWritten(a: seq<int>)
    requires forall k :: 0 <= k < |a| ==> 0 <= a[k] < 256
    ensures BytesWritten(a, 0, 0) == a
  {
  }

  /** Writing the first `n` elements of an array of bytes (the way the
      encoder flushes its packet buffer) appends exactly those elements. */
  lemma PrefixWritten(a: seq<int>, n: int)
    requires 0 < n <= |a| && forall k :: 0 <= k < n ==> 0 <= a[k] < 256
    ensures BytesWritten(a, 0, n) == a[..n]
  {
  }

  /** Reading back every position of the stream gives the bytes written. */
  lemma ReadBackIsContents(b: ByteArray, k: int)
    requires b.Valid() && 0 <= k < |b.Contents|
    ensures b.ReadBack(k) == b.Contents[k]
  {
    var p, o := k / PageSize, k % PageSize;
    assert k == p * PageSize + o;
    if p < b.page {
    } else {
      assert p == b.page;
    }
  }
}
