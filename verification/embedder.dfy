/** The output processor of the embedder tutorial, `DecreaseEmbeddingDim`,
    which cuts every embedding vector of a batch down to its first `new_dim`
    values and optionally normalises it. The vector element type is generic
    and the normalisation is a parameter. */
module Embedder {
  import opened Wrappers

  /** An embedding record: its vector and every other field (index and so
      on), which the processor never touches. */
  datatype Embedding<T, Other> = Embedding(embedding: seq<T>, other: Other)

  /** The processor's settings. */
  datatype DecreaseEmbeddingDim = DecreaseEmbeddingDim(oldDim: int, newDim: int, normalize: bool)

  /** The `AssertionError` raised by the constructor. */
  datatype ConfigError = NewDimNotSmaller

  /** `DecreaseEmbeddingDim(old_dim, new_dim, normalize=True)`. */
  function New(oldDim: int, newDim: int, normalize: bool := true): (r: Result<DecreaseEmbeddingDim, ConfigError>)
    ensures r.Success? <==> newDim < oldDim
    ensures r.Success? ==> r.value.oldDim == oldDim && r.value.newDim == newDim && r.value.normalize == normalize
  {
    if newDim < oldDim then Success(DecreaseEmbeddingDim(oldDim, newDim, normalize))
    else Failure(NewDimNotSmaller)
  }

  /** Python's `v[:n]`: a negative `n` counts from the end. */
  function Head<T>(v: seq<T>, n: int): (r: seq<T>)
    ensures r <= v
    ensures 0 <= n ==> |r| == if n < |v| then n else |v|
    ensures n < 0 ==> |r| == if |v| + n < 0 then 0 else |v| + n
  {
    if 0 <= n then (if n < |v| then v[..n] else v)
    else if |v| + n < 0 then []
    else v[..|v| + n]
  }

  /** The new vector of one embedding. */
  function Shrink<T>(cfg: DecreaseEmbeddingDim, v: seq<T>, norm: seq<T> -> seq<T>): seq<T> {
    if cfg.normalize then norm(Head(v, cfg.newDim)) else Head(v, cfg.newDim)
  }

  /** `DecreaseEmbeddingDim.call(input)`: a copy of the batch in which each
      vector is replaced by its shortened (and, if asked, normalised) form. */
  method Call<T, Other>(cfg: DecreaseEmbeddingDim, input: seq<Embedding<T, Other>>, norm: seq<T> -> seq<T>)
    returns (output: seq<Embedding<T, Other>>)
    ensures |output| == |input|
    ensures forall i :: 0 <= i < |input| ==> output[i].other == input[i].other
    ensures forall i :: 0 <= i < |input| ==> output[i].embedding == Shrink(cfg, input[i].embedding, norm)
  {
    output := [];
    var k := 0;
    while k < |input|
      invariant k <= |input| && |output| == k
      invariant forall i :: 0 <= i < k ==> output[i].other == input[i].other
      invariant forall i :: 0 <= i < k ==> output[i].embedding == Shrink(cfg, input[i].embedding, norm)
    {
      var e := input[k];
      output := output + [Embedding(Shrink(cfg, e.embedding, norm), e.other)];
      k := k + 1;
    }
  }

  /** Without normalisation each vector becomes its own prefix, of length
      `new_dim` or less for a non-negative `new_dim`. */
  lemma UnnormalisedIsPrefix<T>(cfg: DecreaseEmbeddingDim, v: seq<T>, norm: seq<T> -> seq<T>)
    requires !cfg.normalize
    ensures Shrink(cfg, v, norm) <= v
    ensures 0 <= cfg.newDim ==> |Shrink(cfg, v, norm)| <= cfg.newDim
  {
  }

  /** A normalisation that keeps the length keeps every new vector within
      `new_dim` values, for a non-negative `new_dim`. */
  lemma ShrinkWithinNewDim<T>(cfg: DecreaseEmbeddingDim, v: seq<T>, norm: seq<T> -> seq<T>)
    requires 0 <= cfg.newDim
    requires |norm(Head(v, cfg.newDim))| == |Head(v, cfg.newDim)|
    ensures |Shrink(cfg, v, norm)| <= cfg.newDim
  {
  }

  /** A vector already within `new_dim` values is kept whole (before normalisation). */
  lemma ShortVectorKept<T>(v: seq<T>, n: int)
    requires 0 <= |v| <= n
    ensures Head(v, n) == v
  {
  }

  /** Shrinking twice by the same settings without normalisation changes
      nothing more, for a non-negative `new_dim`. */
  lemma ShrinkIdempotent<T>(cfg: DecreaseEmbeddingDim, v: seq<T>, norm: seq<T> -> seq<T>)
    requires !cfg.normalize && 0 <= cfg.newDim
    ensures Shrink(cfg, Shrink(cfg, v, norm), norm) == Shrink(cfg, v, norm)
  {
  }

  /** A negative `new_dim` (allowed by the constructor whenever it is below
      `old_dim`) drops that many values from the end, so a second pass drops
      more. */
  lemma NegativeNewDimDropsFromEnd<T>(v: seq<T>, n: int)
    requires n < 0 && -n <= |v|
    ensures Head(v, n) == v[..|v| + n]
    ensures n < 0 && -n < |v| ==> |Head(Head(v, n), n)| < |Head(v, n)|
  {
  }
}
