/** GPU memory accounting of uploaded textures: the size charged for one
    texture (StelTexture::glLoad) and the texture manager's running total. */
module TextureMemory {

  /** Values of the source's 32-bit unsigned `glSize` wrap modulo 2^32. */
  const UintModulus: int := 0x1_0000_0000

  /** The mipmap chain is charged with anisotropic filtering exactly when
      both the hardware maximum and the configured level are positive. */
  predicate Anisotropic(maxAnisotropy: int, desiredAnisotropy: int)
  {
    maxAnisotropy > 0 && desiredAnisotropy > 0
  }

  /** The memory charged for a texture whose packed data holds `bytes`
      bytes: the data itself; with mipmaps four times that under anisotropic
      filtering, otherwise the data plus a third for the smaller levels. */
  function GlSize(bytes: nat, generateMipmaps: bool, maxAnisotropy: int, desiredAnisotropy: int): (size: nat)
    ensures bytes <= size <= 4 * bytes
    ensures !generateMipmaps ==> size == bytes
    ensures generateMipmaps && Anisotropic(maxAnisotropy, desiredAnisotropy) ==> size == 4 * bytes
    ensures generateMipmaps && !Anisotropic(maxAnisotropy, desiredAnisotropy) ==>
      3 * size <= 4 * bytes < 3 * size + 3
  {
    var size := bytes;
    if !generateMipmaps then size
    else if Anisotropic(maxAnisotropy, desiredAnisotropy) then size * 4
    else size + size / 3
  }

  /** The same computation in the source's 32-bit unsigned arithmetic: the
      byte count is cast to `uint`, which keeps it modulo 2^32 (a no-op for
      the `int` sizes of Qt 5, a truncation for the 64-bit sizes of Qt 6),
      and the mipmap arithmetic wraps modulo 2^32. */
  function GlSizeAsWritten(bytes: nat, generateMipmaps: bool, maxAnisotropy: int, desiredAnisotropy: int): (size: nat)
    ensures size < UintModulus
    ensures !generateMipmaps ==> size == bytes % UintModulus
  {
    var size := bytes % UintModulus;
    if !generateMipmaps then size
    else if Anisotropic(maxAnisotropy, desiredAnisotropy) then (size * 4) % UintModulus
    else (size + size / 3) % UintModulus
  }

  /** For a byte count that fits in 32 bits, the 32-bit charge is the
      intended charge reduced modulo 2^32, and the two agree exactly when
      the intended charge fits in 32 bits. */
  lemma GlSizeAsWrittenWraps(bytes: nat, generateMipmaps: bool, maxAnisotropy: int, desiredAnisotropy: int)
    requires bytes < UintModulus
    ensures GlSizeAsWritten(bytes, generateMipmaps, maxAnisotropy, desiredAnisotropy)
         == GlSize(bytes, generateMipmaps, maxAnisotropy, desiredAnisotropy) % UintModulus
    ensures GlSizeAsWritten(bytes, generateMipmaps, maxAnisotropy, desiredAnisotropy)
         == GlSize(bytes, generateMipmaps, maxAnisotropy, desiredAnisotropy)
        <==> GlSize(bytes, generateMipmaps, maxAnisotropy, desiredAnisotropy) < UintModulus
  {
  }

  /** A 16384 x 16384 RGBA texture (2^30 bytes) with mipmaps and anisotropic
      filtering is charged nothing at all instead of 4 GiB. */
  lemma LargestRgbaTextureChargedNothing()
    ensures GlSizeAsWritten(16384 * 16384 * 4, true, 16, 16) == 0
    ensures GlSize(16384 * 16384 * 4, true, 16, 16) == UintModulus
  {
  }

  /** With 64-bit byte counts, a 32768 x 32768 RGBA texture (2^32 bytes)
      without mipmaps is charged nothing: the cast drops every bit of its
      size. */
  lemma LargerBufferTruncated()
    ensures GlSizeAsWritten(32768 * 32768 * 4, false, 0, 0) == 0
    ensures GlSize(32768 * 32768 * 4, false, 0, 0) == UintModulus
  {
  }

  /** The total charged for a set of uploaded textures, keyed by texture id. */
  ghost function Total(sizes: map<nat, nat>): nat
    decreases |sizes|
  {
    if sizes == map[] then 0
    else
      var id :| id in sizes;
      sizes[id] + Total(sizes - {id})
  }

  /** Taking any one texture out of the total leaves the total of the others. */
  lemma {:induction false} TotalRemove(sizes: map<nat, nat>, id: nat)
    requires id in sizes
    ensures Total(sizes) == sizes[id] + Total(sizes - {id})
    decreases |sizes|
  {
    var chosen :| chosen in sizes && Total(sizes) == sizes[chosen] + Total(sizes - {chosen});
    if chosen != id {
      TotalRemove(sizes - {chosen}, id);
      TotalRemove(sizes - {id}, chosen);
      assert sizes - {chosen} - {id} == sizes - {id} - {chosen};
    }
  }

  /** Registering a new texture adds exactly its charge to the total. */
  lemma TotalInsert(sizes: map<nat, nat>, id: nat, size: nat)
    requires id !in sizes
    ensures Total(sizes[id := size]) == Total(sizes) + size
  {
    TotalRemove(sizes[id := size], id);
    assert sizes[id := size] - {id} == sizes;
  }

  /** Registering a name again replaces its old charge by the new one. */
  lemma TotalReplace(sizes: map<nat, nat>, id: nat, size: nat)
    requires id in sizes
    ensures Total(sizes[id := size]) + sizes[id] == Total(sizes) + size
  {
    TotalRemove(sizes[id := size], id);
    TotalRemove(sizes, id);
    assert sizes[id := size] - {id} == sizes - {id};
  }
}
