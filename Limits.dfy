/** The per-table configuration and the two limits derived from it. */
module Limits {
  import opened PathCodec
  import opened PathOrder

  /** steplen characters per level; pathlen is the capacity of the path column. */
  datatype Options = Options(steplen: nat, pathlen: nat)
  {
    /** The configuration can be built: MPOptions divides pathlen by steplen. */
    predicate Valid() {
      steplen > 0
    }

    /** max_children: the number of distinct steplen-character segments. */
    function MaxChildren(): nat {
      Pow(Radix, steplen)
    }

    /** max_depth: pathlen // steplen + 1 levels (the root is level 1). */
    function MaxDepth(): nat
      requires Valid()
    {
      pathlen / steplen + 1
    }
  }

  /** The default configuration: steplen 3, a path column of 255 characters. */
  const DefaultOptions: Options := Options(3, 255)

  /**
   * A node of depth d has a path of d * steplen characters; it fits in the path
   * column exactly when d is below max_depth.
   */
  lemma DepthFits(o: Options, d: nat)
    requires o.Valid()
    ensures d * o.steplen <= o.pathlen <==> d < o.MaxDepth()
  {
    var s, q := o.steplen, o.pathlen / o.steplen;
    assert o.pathlen == q * s + o.pathlen % s;
    if d <= q {
      MulMono(d, q, s);
    } else {
      MulMono(q + 1, d, s);
    }
  }

  lemma LimitsExamples()
    ensures Options(2, 255).MaxChildren() == 1296 && Options(2, 255).MaxDepth() == 128
    ensures DefaultOptions.MaxChildren() == 46656 && DefaultOptions.MaxDepth() == 86
  {
  }
}
