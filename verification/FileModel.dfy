/** File contents and positional writes. */
module FileModel {
  import opened Common

  type Content = seq<byte>

  /** The byte at a position; a hole or the space past the end reads as zero. */
  function ByteAt(f: Content, x: nat): byte {
    if x < |f| then f[x] else 0
  }

  function Max(a: nat, b: nat): nat {
    if a >= b then a else b
  }

  /** The effect of writing all of `data` at `offset`: gaps past the old end fill with zeros. */
  function WriteAt(f: Content, offset: nat, data: seq<byte>): (g: Content)
    ensures data == [] ==> g == f
    ensures data != [] ==> |g| == Max(|f|, offset + |data|)
    ensures forall x :: 0 <= x < |g| ==>
      g[x] == if offset <= x < offset + |data| then data[x - offset] else ByteAt(f, x)
  {
    if data == [] then f
    else seq(Max(|f|, offset + |data|),
             x requires 0 <= x => if offset <= x < offset + |data| then data[x - offset] else ByteAt(f, x))
  }

  /**
    `g` is `f` with some of the bytes of a write of `data` at `offset` applied, and nothing else: what
    an interrupted or failed write may leave behind.
   */
  ghost predicate Partial(f: Content, g: Content, offset: nat, data: seq<byte>) {
    && |f| <= |g|
    && (|g| > |f| ==> offset < |g| <= offset + |data|)
    && forall x :: 0 <= x < |g| ==> g[x] == ByteAt(f, x) || (offset <= x < offset + |data| && g[x] == data[x - offset])
  }

  /** Two consecutive pieces make one write. */
  lemma WriteSplit(f: Content, offset: nat, data: seq<byte>, k: nat)
    requires k <= |data|
    ensures WriteAt(WriteAt(f, offset, data[..k]), offset + k, data[k..]) == WriteAt(f, offset, data)
  {
    if k == 0 {
      assert data[k..] == data;
    } else if k == |data| {
      assert data[..k] == data;
    } else {
      var g := WriteAt(f, offset, data[..k]);
      var h, w := WriteAt(g, offset + k, data[k..]), WriteAt(f, offset, data);
      assert |h| == |w|;
      forall x | 0 <= x < |w|
        ensures h[x] == w[x]
      {
        if offset <= x < offset + k {
          assert h[x] == ByteAt(g, x) == data[x - offset];
        } else if offset + k <= x < offset + |data| {
        } else {
          assert ByteAt(g, x) == ByteAt(f, x);
        }
      }
    }
  }

  lemma WritePartial(f: Content, offset: nat, data: seq<byte>, k: nat)
    requires k <= |data|
    ensures Partial(f, WriteAt(f, offset, data[..k]), offset, data)
  {
  }

  lemma PartialRefl(f: Content, offset: nat, data: seq<byte>)
    ensures Partial(f, f, offset, data)
  {
  }

  /** A repeated write repairs whatever a failed attempt at it left behind. */
  lemma PartialAbsorbed(f: Content, g: Content, offset: nat, data: seq<byte>)
    requires Partial(f, g, offset, data)
    ensures WriteAt(g, offset, data) == WriteAt(f, offset, data)
  {
    if data == [] {
      assert g == f;
    } else {
      var h, w := WriteAt(g, offset, data), WriteAt(f, offset, data);
      assert |h| == |w|;
      forall x | 0 <= x < |w|
        ensures h[x] == w[x]
      {
        if !(offset <= x < offset + |data|) {
          assert ByteAt(g, x) == ByteAt(f, x);
        }
      }
    }
  }

  // ----- Writes that land late -----

  /** A stray piece of a write is absorbed by the whole write, whether it lands before it or right after it. */
  lemma LatePiece(f: Content, offset: nat, data: seq<byte>, i: nat, k: nat)
    requires i + k <= |data|
    ensures WriteAt(WriteAt(f, offset + i, data[i..i + k]), offset, data) == WriteAt(f, offset, data)
    ensures WriteAt(WriteAt(f, offset, data), offset + i, data[i..i + k]) == WriteAt(f, offset, data)
  {
    PartialAbsorbed(f, WriteAt(f, offset + i, data[i..i + k]), offset, data);
    if k > 0 {
      var g := WriteAt(f, offset, data);
      assert |WriteAt(g, offset + i, data[i..i + k])| == |g|;
    }
  }

  /** A write that lands late is harmless exactly when the file already holds its bytes. */
  lemma LateWriteHarmless(f: Content, offset: nat, data: seq<byte>)
    ensures WriteAt(f, offset, data) == f
       <==> data == [] || (offset + |data| <= |f| && f[offset..offset + |data|] == data)
  {
    var g := WriteAt(f, offset, data);
    if g == f && data != [] {
      assert forall i :: 0 <= i < |data| ==> data[i] == g[offset + i];
    }
    if data != [] && offset + |data| <= |f| && f[offset..offset + |data|] == data {
      assert |g| == |f|;
    }
  }

  /** A failed write of `1` whose request outlives the call undoes a later, successful write of `2`. */
  lemma LateWriteUndoes()
    ensures WriteAt(WriteAt([0], 0, [2]), 0, [1]) == [1]
  {
  }
}
