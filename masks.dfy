/** Class masks at one pixel. An Earth Engine integer pixel is a 32-bit two's-complement
    word, so `bitwiseAnd`, `bitwiseOr` and `bitwiseNot` are the bit-vector operations; `eq`
    gives 0 or 1. A class mask is the OR of `eq` over the class's code list, and the four
    derived masks combine other masks bit by bit. Every asset works pixel by pixel, so one
    pixel (and one band) is the whole story. */
module ClassMasks {
  import opened Wrappers

  type Pixel = bv32

  /** A 0/1 pixel, as `eq` and the class masks produce. */
  predicate IsMask(x: Pixel) { x == 0 || x == 1 }

  /** `img.eq(code)` at a pixel whose raw class code is `raw`. */
  function Eq(raw: int, code: int): (r: Pixel)
    ensures IsMask(r) && (r == 1 <==> raw == code)
  {
    if raw == code then 1 else 0
  }

  /** `class_mask_factory`: start from `eq` on the first code and OR in `eq` on each
      further code; an empty code list fails on `label_list[0]`. */
  method ClassMask(codes: seq<int>, raw: int) returns (r: Result<Pixel>)
    ensures r.Err? <==> |codes| == 0
    ensures r.Err? ==> r.error == IndexError
    ensures r.Ok? ==> IsMask(r.value) && (r.value == 1 <==> raw in codes)
  {
    if |codes| == 0 {
      return Err(IndexError);
    }
    var mask := Eq(raw, codes[0]);
    for k := 1 to |codes|
      invariant IsMask(mask)
      invariant mask == 1 <==> raw in codes[..k]
    {
      assert codes[..k + 1] == codes[..k] + [codes[k]];
      mask := mask | Eq(raw, codes[k]);
    }
    assert codes[..|codes|] == codes;
    return Ok(mask);
  }

  /** `forest_img.bitwiseAnd(forest_mask)`. */
  function ForestPrimary(forest: Pixel, forestMask: Pixel): Pixel
  {
    forest & forestMask
  }

  /** `forest_img.bitwiseAnd(forest_primary_img.bitwiseNot())`. */
  function ForestSecondary(forest: Pixel, primary: Pixel): Pixel
  {
    forest & !primary
  }

  /** `grassland_to_pasture_img.bitwiseAnd(pasture_random_mask)`. */
  function Pasture(toPasture: Pixel, randomMask: Pixel): Pixel
  {
    toPasture & randomMask
  }

  /** `grassland_to_pasture_img.bitwiseAnd(pasture_random_mask.bitwiseNot()).bitwiseOr(grassland_img)`. */
  function GrasslandMerged(toPasture: Pixel, grassland: Pixel, randomMask: Pixel): Pixel
  {
    (toPasture & !randomMask) | grassland
  }

  /** Primary forest is forest: the result is a mask, set only where forest is set. */
  lemma PrimaryWithinForest(forest: Pixel, forestMask: Pixel)
    requires IsMask(forest) && IsMask(forestMask)
    ensures IsMask(ForestPrimary(forest, forestMask))
    ensures ForestPrimary(forest, forestMask) == 1 <==> forest == 1 && forestMask == 1
  {
  }

  /** Primary and secondary forest split forest: they share no bit and together give
      forest back, whatever the opaque forest mask holds. */
  lemma ForestPartition(forest: Pixel, forestMask: Pixel)
    ensures var primary := ForestPrimary(forest, forestMask);
            var secondary := ForestSecondary(forest, primary);
            primary & secondary == 0 && primary | secondary == forest
  {
  }

  /** Secondary forest is a mask, set exactly where forest is set and primary is not. */
  lemma SecondaryIsForestOutsidePrimary(forest: Pixel, forestMask: Pixel)
    requires IsMask(forest) && IsMask(forestMask)
    ensures var secondary := ForestSecondary(forest, ForestPrimary(forest, forestMask));
            IsMask(secondary) && (secondary == 1 <==> forest == 1 && forestMask != 1)
  {
  }

  /** Pasture is grassland to become pasture, where the random mask picks it. */
  lemma PastureWithinToPasture(toPasture: Pixel, randomMask: Pixel)
    requires IsMask(toPasture) && IsMask(randomMask)
    ensures IsMask(Pasture(toPasture, randomMask))
    ensures Pasture(toPasture, randomMask) == 1 ==> toPasture == 1
  {
  }

  /** Pasture and the merged grassland together cover the grassland to become pasture and
      the grassland, and overlap only where a pixel is in both and the random mask picks it. */
  lemma PastureAndMergedGrassland(toPasture: Pixel, grassland: Pixel, randomMask: Pixel)
    requires IsMask(toPasture) && IsMask(grassland) && IsMask(randomMask)
    ensures var p := Pasture(toPasture, randomMask);
            var g := GrasslandMerged(toPasture, grassland, randomMask);
            IsMask(g)
            && p | g == toPasture | grassland
            && (p & g == 1 <==> toPasture == 1 && grassland == 1 && randomMask == 1)
  {
  }
}
