/** `chunks` from common.py: the batching every remote command goes through. */
module Common {
  import opened Wrappers

  /** Flattens a sequence of chunks back into one sequence. */
  function Concat<T>(chunks: seq<seq<T>>): seq<T>
  {
    if chunks == [] then [] else chunks[0] + Concat(chunks[1..])
  }

  lemma {:induction false} ConcatAppend<T>(a: seq<seq<T>>, b: seq<seq<T>>)
    ensures Concat(a + b) == Concat(a) + Concat(b)
  {
    if a != [] {
      assert (a + b)[1..] == a[1..] + b;
      ConcatAppend(a[1..], b);
    } else {
      assert a + b == b;
    }
  }

  lemma ConcatSnoc<T>(init: seq<seq<T>>, last: seq<T>)
    ensures Concat(init + [last]) == Concat(init) + last
  {
    ConcatAppend(init, [last]);
    var tail: seq<seq<T>> := [last][1..];
    assert tail == [];
    assert Concat([last]) == last + Concat(tail);
  }

  /** Flattening one more chunk of a prefix appends that chunk. */
  lemma ConcatPrefixStep<T>(chunks: seq<seq<T>>, i: nat)
    requires i < |chunks|
    ensures Concat(chunks[..i + 1]) == Concat(chunks[..i]) + chunks[i]
  {
    assert chunks[..i + 1] == chunks[..i] + [chunks[i]];
    ConcatSnoc(chunks[..i], chunks[i]);
  }

  lemma MulMono(a: int, b: int, n: int)
    requires n > 0 && a <= b
    ensures a * n <= b * n
  {
  }

  lemma MulSucc(a: int, n: int)
    ensures (a + 1) * n == a * n + n
  {
  }

  lemma DivUnique(a: int, n: int, q: int)
    requires n > 0 && q * n <= a < (q + 1) * n
    ensures a / n == q
  {
    var q', r' := a / n, a % n;
    assert a == q' * n + r';
    MulSucc(q', n);
    MulSucc(q, n);
    if q' < q {
      MulMono(q' + 1, q, n);
    }
    if q' > q {
      MulMono(q + 1, q', n);
    }
  }

  /**
   * `chunks(lst, n)` for a positive `n`: the successive slices
   * `lst[i:i + n]` for i = 0, n, 2n, ... below `len(lst)`. Every chunk is
   * non-empty, none is longer than `n`, only the last may be shorter, there
   * are ceil(len / n) of them and together they give back `lst` in order.
   */
  function Chunks<T>(lst: seq<T>, n: nat): (r: seq<seq<T>>)
    requires n > 0
    ensures r == [] <==> lst == []
    ensures |r| > 1 <==> |lst| > n
    decreases |lst|
  {
    if |lst| == 0 then []
    else if |lst| <= n then [lst]
    else
      var rest := Chunks(lst[n..], n);
      assert ([lst[..n]] + rest)[1..] == rest;
      [lst[..n]] + rest
  }

  /** Together the chunks give back `lst`, in order. */
  lemma {:induction false} ChunksConcat<T>(lst: seq<T>, n: nat)
    requires n > 0
    ensures Concat(Chunks(lst, n)) == lst
    decreases |lst|
  {
    if |lst| == 0 {
    } else if |lst| <= n {
      assert Concat([lst]) == lst + Concat([]);
    } else {
      var rest := Chunks(lst[n..], n);
      ChunksConcat(lst[n..], n);
      assert ([lst[..n]] + rest)[1..] == rest;
      assert lst[..n] + lst[n..] == lst;
    }
  }

  lemma ChunksUnfold<T>(lst: seq<T>, n: nat)
    requires n > 0 && |lst| > n
    ensures Chunks(lst, n) == [lst[..n]] + Chunks(lst[n..], n)
  {
  }

  /** Every chunk is non-empty and at most `n` long; all but the last are exactly `n` long. */
  lemma {:induction false} ChunkSizes<T>(lst: seq<T>, n: nat)
    requires n > 0
    ensures forall i :: 0 <= i < |Chunks(lst, n)| ==> 0 < |Chunks(lst, n)[i]| <= n
    ensures forall i :: 0 <= i < |Chunks(lst, n)| - 1 ==> |Chunks(lst, n)[i]| == n
    decreases |lst|
  {
    if |lst| > n {
      ChunksUnfold(lst, n);
      ChunkSizes(lst[n..], n);
    }
  }

  lemma {:induction false} ChunkBounds<T>(lst: seq<T>, n: nat)
    requires n > 0 && lst != []
    ensures (|Chunks(lst, n)| - 1) * n < |lst| <= |Chunks(lst, n)| * n
    decreases |lst|
  {
    if |lst| > n {
      var k := |Chunks(lst[n..], n)|;
      ChunksUnfold(lst, n);
      ChunkBounds(lst[n..], n);
      MulSucc(k, n);
      MulSucc(k - 1, n);
    }
  }

  /** There are ceil(len(lst) / n) chunks. */
  lemma ChunkCount<T>(lst: seq<T>, n: nat)
    requires n > 0
    ensures |Chunks(lst, n)| == (|lst| + n - 1) / n
  {
    var k := |Chunks(lst, n)|;
    if k > 0 {
      ChunkBounds(lst, n);
    }
    if k == 0 {
      DivUnique(n - 1, n, 0);
    } else {
      assert (k - 1) * n + n == k * n;
      DivUnique(|lst| + n - 1, n, k);
    }
  }

  function Min(a: int, b: int): int { if a <= b then a else b }

  lemma SliceOfDrop<T>(lst: seq<T>, n: nat, a: nat, b: nat)
    requires n <= |lst| && a <= b <= |lst| - n
    ensures lst[n..][a..b] == lst[n + a .. n + b]
  {
  }

  lemma ChunkFirst<T>(lst: seq<T>, n: nat)
    requires n > 0 && lst != []
    ensures Chunks(lst, n)[0] == lst[0 .. Min(n, |lst|)]
  {
    if |lst| > n {
      ChunksUnfold(lst, n);
    }
  }

  /** Where chunk `i` starts: `i * n`, written without multiplication. */
  function Offset(i: nat, n: nat): nat
  {
    if i == 0 then 0 else Offset(i - 1, n) + n
  }

  lemma {:induction false} OffsetIsProduct(i: nat, n: nat)
    ensures Offset(i, n) == i * n
  {
    if i > 0 {
      OffsetIsProduct(i - 1, n);
      MulSucc(i - 1, n);
    }
  }

  /** Past the first chunk, the chunks are those of the rest of the list. */
  lemma ChunkOfTail<T>(lst: seq<T>, n: nat, i: nat)
    requires n > 0 && 0 < i < |Chunks(lst, n)|
    ensures |lst| > n && i - 1 < |Chunks(lst[n..], n)|
    ensures Chunks(lst, n)[i] == Chunks(lst[n..], n)[i - 1]
  {
    ChunksUnfold(lst, n);
  }

  lemma {:induction false} ChunkAtOffset<T>(lst: seq<T>, n: nat, i: nat)
    requires n > 0 && i < |Chunks(lst, n)|
    ensures Offset(i, n) < |lst|
    ensures Chunks(lst, n)[i] == lst[Offset(i, n) .. Min(Offset(i, n) + n, |lst|)]
    decreases i
  {
    if i == 0 {
      ChunkFirst(lst, n);
      assert Offset(0, n) == 0;
    } else {
      ChunkOfTail(lst, n, i);
      var tail := lst[n..];
      ChunkAtOffset(tail, n, i - 1);
      var a, b := Offset(i - 1, n), Min(Offset(i - 1, n) + n, |tail|);
      assert Offset(i, n) == n + a;
      assert Min(Offset(i, n) + n, |lst|) == n + b;
      SliceOfDrop(lst, n, a, b);
    }
  }

  /** Element `j` of chunk `i` is element `Offset(i, n) + j` of the list. */
  lemma {:induction false} ChunkElement<T>(lst: seq<T>, n: nat, i: nat, j: nat)
    requires n > 0 && i < |Chunks(lst, n)| && j < |Chunks(lst, n)[i]|
    ensures Offset(i, n) + j < |lst|
    ensures Chunks(lst, n)[i][j] == lst[Offset(i, n) + j]
    decreases i
  {
    if i == 0 {
      ChunkFirst(lst, n);
    } else {
      ChunkOfTail(lst, n, i);
      ChunkElement(lst[n..], n, i - 1, j);
    }
  }

  /** The last element split off a non-empty sequence. */
  lemma InitLast<T>(s: seq<T>)
    requires s != []
    ensures s[..|s| - 1] + [s[|s| - 1]] == s
  {
  }

  /** Slicing past a prefix slices the rest. */
  lemma SliceAfterPrefix<T>(a: seq<T>, b: seq<T>, x: nat, y: nat)
    requires x <= y <= |b|
    ensures (a + b)[|a| + x .. |a| + y] == b[x..y]
  {
  }

  /** Chunk `i` is the slice `lst[i * n : (i + 1) * n]`, clipped at the end as Python slicing does. */
  lemma ChunkAt<T>(lst: seq<T>, n: nat, i: nat)
    requires n > 0 && i < |Chunks(lst, n)|
    ensures i * n < |lst|
    ensures Chunks(lst, n)[i] == lst[i * n .. Min((i + 1) * n, |lst|)]
  {
    ChunkAtOffset(lst, n, i);
    OffsetIsProduct(i, n);
    MulSucc(i, n);
  }

  /** The Python errors `chunks` can raise. */
  datatype PyError = TypeError | ValueError

  /** What `chunks` is handed: a list (sliceable), or a `dict.items()` view (it has a length, but cannot be sliced). */
  datatype Sliceable<T> = ListOf(items: seq<T>) | ItemsView(items: seq<T>)

  /**
   * `chunks(lst, n)` exactly as written, for every integer step: a zero step
   * makes `range` raise ValueError, a negative step gives an empty range, and
   * slicing a `dict.items()` view raises TypeError on the first chunk.
   */
  function PyChunks<T>(lst: Sliceable<T>, n: int): (r: Result<seq<seq<T>>, PyError>)
    ensures n == 0 <==> r == Err(ValueError)
    ensures r == Err(TypeError) <==> n > 0 && lst.ItemsView? && |lst.items| > 0
    ensures n > 0 && lst.ListOf? ==> r == Ok(Chunks(lst.items, n))
    ensures n < 0 ==> r == Ok([])
    ensures n > 0 && |lst.items| == 0 ==> r == Ok([])
  {
    if n == 0 then Err(ValueError)
    else if n < 0 || |lst.items| == 0 then Ok([])
    else if lst.ItemsView? then Err(TypeError)
    else Ok(Chunks(lst.items, n))
  }
}
