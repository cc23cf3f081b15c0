// Bytes, C strings and the small lexical helpers every other module uses.
module Bytes {
  type byte = x: int | 0 <= x < 256

  type bytes = seq<byte>

  datatype Option<+T> = None | Some(value: T)

  // A C string is the run of bytes before its terminator, so it holds no NUL.
  predicate NulFree(s: bytes) {
    forall i :: 0 <= i < |s| ==> s[i] != 0
  }

  // What reading the buffer of the C string s at index i yields: index |s| is the terminator.
  function At(s: bytes, i: nat): byte
    requires i <= |s|
  {
    if i < |s| then s[i] else 0
  }

  // The word w stands in s at index i. Stated byte by byte, so that proofs about long texts
  // move whole words around instead of comparing slices.
  predicate Occurs(s: bytes, i: nat, w: bytes): (r: bool)
    ensures r ==> i + |w| <= |s|
    decreases |w|
  {
    if |w| == 0 then i <= |s| else i < |s| && s[i] == w[0] && Occurs(s, i + 1, w[1..])
  }

  lemma {:induction false} OccursIsSlice(s: bytes, i: nat, w: bytes)
    ensures Occurs(s, i, w) <==> i + |w| <= |s| && s[i..i + |w|] == w
    decreases |w|
  {
    if |w| > 0 {
      OccursIsSlice(s, i + 1, w[1..]);
      assert [w[0]] + w[1..] == w;
      if i + |w| <= |s| {
        var t := s[i..i + |w|];
        assert t[0] == s[i] && t[1..] == s[i + 1..i + |w|];
      }
    }
  }

  lemma {:induction false} OccursConcat(s: bytes, i: nat, a: bytes, b: bytes)
    ensures Occurs(s, i, a + b) <==> Occurs(s, i, a) && Occurs(s, i + |a|, b)
    decreases |a|
  {
    if |a| == 0 {
      assert a + b == b;
    } else {
      assert (a + b)[1..] == a[1..] + b;
      OccursConcat(s, i + 1, a[1..], b);
    }
  }

  lemma {:induction false} OccursAt(s: bytes, i: nat, w: bytes, k: nat)
    requires Occurs(s, i, w) && k < |w|
    ensures At(s, i + k) == w[k]
    decreases |w|
  {
    if k > 0 {
      OccursAt(s, i + 1, w[1..], k - 1);
    }
  }

  // The first byte of a word, or the byte behind it when the word is empty.
  lemma HeadByte(s: bytes, i: nat, w: bytes)
    requires Occurs(s, i, w)
    ensures At(s, i) == if |w| == 0 then At(s, i + |w|) else w[0]
  {
  }

  lemma OccursByte(s: bytes, i: nat, c: byte)
    ensures Occurs(s, i, [c]) <==> i < |s| && s[i] == c
  {
  }

  // A word between two bytes.
  lemma OccursBetween(s: bytes, i: nat, open: byte, body: bytes, close: byte)
    ensures Occurs(s, i, [open] + body + [close])
      <==> i < |s| && s[i] == open && Occurs(s, i + 1, body)
           && i + 1 + |body| < |s| && s[i + 1 + |body|] == close
  {
    OccursConcat(s, i, [open] + body, [close]);
    OccursConcat(s, i, [open], body);
    OccursByte(s, i, open);
    OccursByte(s, i + 1 + |body|, close);
  }

  predicate IsDigit(c: byte) {
    48 <= c <= 57
  }

  predicate IsSpace(c: byte) {
    0 < c <= 32
  }

  // skip(): the first index from i on that holds no blank; the terminator is not blank.
  function Skip(s: bytes, i: nat): (j: nat)
    requires i <= |s|
    ensures i <= j <= |s|
    ensures !IsSpace(At(s, j))
    ensures forall k :: i <= k < j ==> IsSpace(s[k])
    decreases |s| - i
  {
    if IsSpace(At(s, i)) then Skip(s, i + 1) else i
  }

  predicate Blank(w: bytes) {
    forall k :: 0 <= k < |w| ==> IsSpace(w[k])
  }

  // Any blank run that ends at a non-blank byte is skipped whole.
  lemma {:induction false} SkipBlank(s: bytes, i: nat, w: bytes)
    requires Occurs(s, i, w) && Blank(w) && !IsSpace(At(s, i + |w|))
    ensures Skip(s, i) == i + |w|
  {
    forall k | i <= k < i + |w| ensures IsSpace(s[k]) {
      OccursAt(s, i, w, k - i);
    }
    var j := Skip(s, i);
    assert j >= i + |w|;
  }
}
