/** Cutting a byte string into equal pieces, as the chunker and the fragmenter both do. */
module Slicing {
  import opened Division

  /** Pieces of the given size, the last one possibly shorter; none for an empty string. */
  function Pieces<T>(data: seq<T>, size: nat): seq<seq<T>>
    requires size > 0
  {
    if data == [] then []
    else if |data| <= size then [data]
    else [data[..size]] + Pieces(data[size..], size)
  }

  function Concat<T>(parts: seq<seq<T>>): seq<T> {
    if parts == [] then [] else parts[0] + Concat(parts[1..])
  }

  function Count(length: nat, size: nat): nat
    requires size > 0
  {
    (length + size - 1) / size
  }

  lemma {:induction false} ConcatOfPieces<T>(data: seq<T>, size: nat)
    requires size > 0
    ensures Concat(Pieces(data, size)) == data
  {
    if data != [] && |data| > size {
      ConcatOfPieces(data[size..], size);
      var p := Pieces(data, size);
      assert p[1..] == Pieces(data[size..], size);
      assert data == data[..size] + data[size..];
    } else if data != [] {
      assert Pieces(data, size) == [data];
    }
  }

  lemma {:induction false} ConcatAppend<T>(a: seq<seq<T>>, b: seq<seq<T>>)
    ensures Concat(a + b) == Concat(a) + Concat(b)
  {
    if a == [] {
      assert a + b == b;
    } else {
      ConcatAppend(a[1..], b);
      assert (a + b)[1..] == a[1..] + b;
      assert (a[0] + Concat(a[1..])) + Concat(b) == a[0] + (Concat(a[1..]) + Concat(b));
    }
  }

  lemma CountStep(length: nat, size: nat)
    requires size > 0 && length > size
    ensures Count(length, size) == 1 + Count(length - size, size)
  {
    var q, r := (length - size + size - 1) / size, (length - size + size - 1) % size;
    assert length + size - 1 == size * (q + 1) + r;
    Quotient(length + size - 1, size, q + 1, r);
  }

  lemma {:induction false} PieceCount<T>(data: seq<T>, size: nat)
    requires size > 0
    ensures |Pieces(data, size)| == Count(|data|, size)
  {
    if data == [] {
      Quotient(size - 1, size, 0, size - 1);
    } else if |data| <= size {
      Quotient(|data| + size - 1, size, 1, |data| - 1);
    } else {
      PieceCount(data[size..], size);
      CountStep(|data|, size);
    }
  }

  function End(start: nat, size: nat, length: nat): nat {
    if start + size <= length then start + size else length
  }

  /** Piece i is the slice the sources compute from its index. */
  lemma {:induction false} PieceAt<T>(data: seq<T>, size: nat, i: nat)
    requires size > 0 && i < |Pieces(data, size)|
    ensures i * size < |data|
    ensures Pieces(data, size)[i] == data[i * size..End(i * size, size, |data|)]
  {
    if i > 0 {
      PieceAt(data[size..], size, i - 1);
      assert i * size == (i - 1) * size + size;
      ShiftedPiece(data, size, (i - 1) * size);
    }
  }

  lemma ShiftedPiece<T>(data: seq<T>, size: nat, start: nat)
    requires size <= |data| && start < |data| - size
    ensures data[size..][start..End(start, size, |data| - size)] == data[start + size..End(start + size, size, |data|)]
  {
    var e := End(start, size, |data| - size);
    assert data[size..][start..e] == data[start + size..e + size];
  }
}
