/** Laying records out on printed pages: `paginateData` cuts the sequence of
    records into consecutive pages of a fixed size; only the last page may
    be shorter, and no page is empty. */
module Pagination {
  import opened NameTags

  function Min(a: nat, b: nat): nat
  {
    if a <= b then a else b
  }

  /** The pages laid end to end. */
  function Flatten<T>(pages: seq<seq<T>>): seq<T>
  {
    if pages == [] then [] else pages[0] + Flatten(pages[1..])
  }

  /** The pages of `data`: the first `size` items (or all of them, if
      fewer), then the pages of the rest. */
  function Chunks<T>(data: seq<T>, size: nat): seq<seq<T>>
    requires size >= 1
    decreases |data|
  {
    if data == [] then []
    else
      var n := Min(size, |data|);
      [data[..n]] + Chunks(data[n..], size)
  }

  /** Laid end to end, the pages give back the data: no item is lost,
      repeated or moved. */
  lemma {:induction false} ChunksFlatten<T>(data: seq<T>, size: nat)
    requires size >= 1
    ensures Flatten(Chunks(data, size)) == data
    decreases |data|
  {
    if data != [] {
      var n := Min(size, |data|);
      ChunksFlatten(data[n..], size);
      var pages := Chunks(data, size);
      assert pages[1..] == Chunks(data[n..], size);
      assert data == data[..n] + data[n..];
    }
  }

  /** Where page j starts: j pages of `size` items come before it. */
  function Offset(j: nat, size: nat): (start: nat)
  {
    if j == 0 then 0 else Offset(j - 1, size) + size
  }

  lemma {:induction false} OffsetIsProduct(j: nat, size: nat)
    ensures Offset(j, size) == j * size
  {
    if j > 0 {
      OffsetIsProduct(j - 1, size);
      MulSucc(j - 1, size);
    }
  }

  lemma {:induction false} MulSucc(k: nat, size: nat)
    ensures (k + 1) * size == k * size + size
  {
  }

  /** Page j, located by its offset: it starts inside the data, and every
      page but the last ends before the data does. */
  lemma {:induction false} PageAt<T>(data: seq<T>, size: nat, j: nat)
    requires size >= 1 && j < |Chunks(data, size)|
    ensures Offset(j, size) < |data|
    ensures Chunks(data, size)[j] == data[Offset(j, size) .. Min(Offset(j, size) + size, |data|)]
    ensures j < |Chunks(data, size)| - 1 ==> Offset(j, size) + size < |data|
    decreases j
  {
    var n := Min(size, |data|);
    var rest := data[n..];
    assert |Chunks(data, size)| == 1 + |Chunks(rest, size)|;
    if j == 0 {
      assert Chunks(data, size)[0] == data[..n];
    } else {
      assert Chunks(data, size)[j] == Chunks(rest, size)[j - 1];
      PageAt(rest, size, j - 1);
      assert n == size;
      var before := Offset(j - 1, size);
      SliceOfSuffix(data, size, before, Min(before + size, |rest|));
    }
  }

  lemma {:induction false} SliceOfSuffix<T>(data: seq<T>, k: nat, a: nat, b: nat)
    requires k <= |data| && a <= b <= |data| - k
    ensures data[k..][a..b] == data[k + a .. k + b]
  {
  }

  /** Page j holds the items from j * size up to (j + 1) * size, or to the
      end of the data for the last page: no page is empty, none holds more
      than `size` items, and every page but the last is full. */
  lemma {:induction false} ChunkAt<T>(data: seq<T>, size: nat, j: nat)
    requires size >= 1 && j < |Chunks(data, size)|
    ensures j * size < |data|
    ensures Chunks(data, size)[j] == data[j * size .. Min(j * size + size, |data|)]
    ensures 0 < |Chunks(data, size)[j]| <= size
    ensures j < |Chunks(data, size)| - 1 ==> |Chunks(data, size)[j]| == size
  {
    PageAt(data, size, j);
    OffsetIsProduct(j, size);
  }

  /** The number of pages is the item count divided by the page size,
      rounded up: the pages before the last are too few to hold the data,
      and all of them are enough. */
  lemma {:induction false} ChunkCount<T>(data: seq<T>, size: nat)
    requires size >= 1
    ensures var count := |Chunks(data, size)|;
      (count - 1) * size < |data| <= count * size
      || (count == 0 && data == [])
    decreases |data|
  {
    if data != [] {
      var n := Min(size, |data|);
      ChunkCount(data[n..], size);
      var rest := |Chunks(data[n..], size)|;
      assert |Chunks(data, size)| == rest + 1;
      MulSucc(rest, size);
    }
  }

  /** The same count as the ceiling of a quotient. */
  lemma {:induction false} PageCount<T>(data: seq<T>, size: nat)
    requires size >= 1
    ensures |Chunks(data, size)| == (|data| + size - 1) / size
  {
    ChunkCount(data, size);
    var count := |Chunks(data, size)|;
    var sum := |data| + size - 1;
    if count == 0 {
      assert sum == size - 1;
    } else {
      var r := sum - count * size;
      assert 0 <= r < size;
      DivisionUnique(sum, size, count, r);
    }
  }

  lemma {:induction false} DivisionUnique(a: int, b: int, q: int, r: int)
    requires b > 0 && 0 <= r < b && a == q * b + r
    ensures a / b == q
  {
    var q', r' := a / b, a % b;
    assert a == q' * b + r';
    if q' > q {
      assert (q' - q) * b == r - r';
      MulAtLeast(q' - q, b);
    } else if q' < q {
      assert (q - q') * b == r' - r;
      MulAtLeast(q - q', b);
    }
  }

  lemma {:induction false} MulAtLeast(x: nat, b: nat)
    requires x >= 1
    ensures x * b >= b
  {
    if x > 1 {
      MulAtLeast(x - 1, b);
      assert x * b == (x - 1) * b + b;
    }
  }

  /** The pages from offset i on: the page at i, then those after it. */
  lemma {:induction false} ChunksFrom<T>(data: seq<T>, size: nat, i: nat)
    requires size >= 1 && i < |data|
    ensures Chunks(data[i..], size)
      == [data[i .. Min(i + size, |data|)]] + Chunks(data[Min(i + size, |data|)..], size)
  {
    var rest := data[i..];
    assert rest[..Min(size, |rest|)] == data[i .. Min(i + size, |data|)];
    assert rest[Min(size, |rest|)..] == data[Min(i + size, |data|)..];
  }

  /** `paginateData`: pages of `itemsPerPage` records taken at offsets 0,
      itemsPerPage, 2 * itemsPerPage, and so on while the offset is inside
      the data; each page is `data.slice(i, i + itemsPerPage)`, which stops at
      the end of the data. */
  method PaginateData(data: seq<NameTagData>, itemsPerPage: nat) returns (pages: seq<seq<NameTagData>>)
    requires itemsPerPage >= 1
    ensures pages == Chunks(data, itemsPerPage)
    ensures Flatten(pages) == data
  {
    pages := [];
    var i := 0;
    while i < |data|
      invariant pages + Chunks(data[Min(i, |data|)..], itemsPerPage) == Chunks(data, itemsPerPage)
      decreases |data| - i
    {
      var page := data[i .. Min(i + itemsPerPage, |data|)];
      ChunksFrom(data, itemsPerPage, i);
      pages := pages + [page];
      i := i + itemsPerPage;
    }
    assert data[Min(i, |data|)..] == [];
    ChunksFlatten(data, itemsPerPage);
  }
}
