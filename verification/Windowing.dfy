/** Cutting a target into windows. */
module Windowing {
  import opened Base
  import opened Streams

  /** The full windows of some data. */
  function Cut(data: Bytes, size: nat): seq<Bytes>
    requires size > 0
    decreases |data|
  {
    if |data| < size then [] else [data[..size]] + Cut(data[size..], size)
  }

  /** What does not fill a window. */
  function Left(data: Bytes, size: nat): (r: Bytes)
    requires size > 0
    ensures |r| < size
    decreases |data|
  {
    if |data| < size then data else Left(data[size..], size)
  }

  function Windows(data: Bytes, size: nat): seq<Bytes>
    requires size > 0
  {
    Cut(data, size) + if Left(data, size) == [] then [] else [Left(data, size)]
  }

  /** Data that comes in two pieces is cut as if it came in one. */
  lemma {:induction false} CutAppend(a: Bytes, b: Bytes, size: nat)
    requires size > 0
    ensures Cut(a + b, size) == Cut(a, size) + Cut(Left(a, size) + b, size)
    ensures Left(a + b, size) == Left(Left(a, size) + b, size)
    decreases |a|
  {
    if |a| >= size {
      assert (a + b)[..size] == a[..size] && (a + b)[size..] == a[size..] + b;
      CutAppend(a[size..], b, size);
    }
  }

  /** The windows cut so far and those of what is pending make up those of everything. */
  ghost predicate Cutting(done: seq<Bytes>, pending: Bytes, all: Bytes, size: nat)
    requires size > 0
  {
    done + Cut(pending, size) == Cut(all, size) && Left(pending, size) == Left(all, size)
  }

  lemma CuttingStarts(fed: Bytes, data: Bytes, size: nat)
    requires size > 0
    ensures Cutting(Cut(fed, size), Left(fed, size) + data, fed + data, size)
  {
    CutAppend(fed, data, size);
  }

  lemma CuttingStep(done: seq<Bytes>, pending: Bytes, all: Bytes, size: nat)
    requires 0 < size <= |pending| && Cutting(done, pending, all, size)
    ensures Cutting(done + [pending[..size]], pending[size..], all, size)
  {
    var first, rest := pending[..size], Cut(pending[size..], size);
    assert done + ([first] + rest) == (done + [first]) + rest;
  }

  lemma CuttingEnds(done: seq<Bytes>, pending: Bytes, all: Bytes, size: nat)
    requires |pending| < size && Cutting(done, pending, all, size)
    ensures done == Cut(all, size) && pending == Left(all, size)
  {
    assert done + [] == done;
  }

  /** Cutting loses nothing; every window is full except perhaps the last. */
  lemma {:induction false} WindowsConcat(data: Bytes, size: nat)
    requires size > 0
    ensures Concat(Windows(data, size)) == data
    ensures forall i :: 0 <= i < |Windows(data, size)| ==> 0 < |Windows(data, size)[i]| <= size
    ensures forall i :: 0 <= i < |Windows(data, size)| - 1 ==> |Windows(data, size)[i]| == size
    decreases |data|
  {
    var ws := Windows(data, size);
    if |data| < size {
      if data != [] {
        assert ws == [data] && ws[1..] == [];
        assert data + [] == data;
      }
    } else {
      var rest := Windows(data[size..], size);
      WindowsConcat(data[size..], size);
      assert ws == [data[..size]] + rest;
      assert ws[1..] == rest;
      assert data[..size] + data[size..] == data;
    }
  }

  /** For a target shorter than a window the size makes no difference. */
  lemma WindowsOfShort(data: Bytes, size: nat, larger: nat)
    requires 0 < size && |data| <= size && |data| < larger
    ensures Windows(data, size) == Windows(data, larger)
  {
    if |data| == size {
      assert data[..size] == data && data[size..] == [];
      var none: Bytes := data[size..];
      assert Cut(none, size) == [] && Left(none, size) == none;
      assert Cut(data, size) == [data[..size]] + Cut(none, size) == [data];
      assert Left(data, size) == Left(none, size) == [];
      assert [data] + [] == [data] == [] + [data];
    }
  }

  lemma OneWindow(data: Bytes, size: nat)
    requires 0 < |data| <= size
    ensures Windows(data, size) == [data]
  {
    if |data| == size {
      WindowsOfShort(data, size, size + 1);
    }
  }

  /** Taking windows from the front, the last one as short as it is. */
  lemma WindowsStep(data: Bytes, size: nat)
    requires size > 0 && data != []
    ensures var n := Min(size, |data|);
            Windows(data, size) == [data[..n]] + Windows(data[n..], size)
  {
    if |data| < size {
      assert data[..|data|] == data && data[|data|..] == [];
    }
  }

  /** Window `i` is the stretch from `i` times the size on. */
  lemma {:induction false} WindowAt(data: Bytes, size: nat, i: nat)
    requires size > 0 && i < |Windows(data, size)|
    ensures 0 <= i * size < |data|
    ensures Windows(data, size)[i] == data[i * size..Min(i * size + size, |data|)]
    decreases i
  {
    hide Windows;
    if data == [] {
      assert Windows(data, size) == [] by {
        NoWindows(size);
      }
    } else {
      WindowsStep(data, size);
      var n := Min(size, |data|);
      if i > 0 {
        assert Windows(data, size)[i] == Windows(data[n..], size)[i - 1];
        WindowAt(data[n..], size, i - 1);
        assert i * size == (i - 1) * size + size;
        var lo, hi := (i - 1) * size, Min((i - 1) * size + size, |data| - n);
        assert n == size;
        assert data[n..][lo..hi] == data[n + lo..n + hi];
      }
    }
  }

  lemma NoWindows(size: nat)
    requires size > 0
    ensures Windows([], size) == []
  {
  }
}
