/**
 * The index list that `TryFrom<DisplayVertexBuffer> for IndexBuffer<u32>` (src/buffer.rs)
 * hands to the GPU: for a vertex buffer holding a path, one line segment from each vertex to
 * the next, as `[0, 1, 1, 2, 2, 3, ...]`.
 */
module Buffer {
  import opened Wrappers

  /** The number of values of `u32`. */
  const U32Limit: nat := 0x1_0000_0000

  /** The segments `[i, i + 1]` for `i` in `0 .. m`, flattened. */
  function Segments(m: nat): seq<nat>
  {
    if m == 0 then [] else Segments(m - 1) + [m - 1, m]
  }

  /**
   * `index_vec` for a vertex buffer of `len` vertices: `u32::try_from(len).unwrap()` panics on
   * a length that does not fit in `u32`, which gives `None` here; otherwise the segments up to
   * `len.saturating_sub(1)`.
   */
  function LineListIndices(len: nat): Option<seq<nat>>
  {
    if len >= U32Limit then None
    else Some(Segments(if len == 0 then 0 else len - 1))
  }

  /** Entry `k` of the segments is `(k + 1) / 2`: each segment starts where the last one ended. */
  lemma {:induction false} SegmentsAt(m: nat)
    ensures |Segments(m)| == 2 * m
    ensures forall k | 0 <= k < 2 * m :: Segments(m)[k] == (k + 1) / 2
  {
    if m > 0 {
      SegmentsAt(m - 1);
    }
  }

  /**
   * The index list exists exactly for lengths that fit in `u32`; it has `2 * (len - 1)` entries
   * (none for an empty or one-vertex buffer), entry `2 * i` is `i` and entry `2 * i + 1` is
   * `i + 1`, every entry indexes a vertex, and the list never decreases.
   */
  lemma LineListSpec(len: nat)
    ensures LineListIndices(len).None? <==> len >= U32Limit
    ensures LineListIndices(len).Some? ==>
              var r := LineListIndices(len).value;
              && |r| == (if len == 0 then 0 else 2 * (len - 1))
              && (forall i | 0 <= i && 2 * i + 1 < |r| :: r[2 * i] == i && r[2 * i + 1] == i + 1)
              && (forall k | 0 <= k < |r| :: r[k] < len)
              && (forall j, k | 0 <= j <= k < |r| :: r[j] <= r[k])
  {
    if len < U32Limit {
      var m := if len == 0 then 0 else len - 1;
      SegmentsAt(m);
      var r := Segments(m);
      forall i | 0 <= i && 2 * i + 1 < |r| ensures r[2 * i] == i && r[2 * i + 1] == i + 1 {
        assert (2 * i + 1) / 2 == i;
        assert (2 * i + 2) / 2 == i + 1;
      }
      forall j, k | 0 <= j <= k < |r| ensures r[j] <= r[k] {
        assert (j + 1) / 2 <= (k + 1) / 2;
      }
    }
  }
}
