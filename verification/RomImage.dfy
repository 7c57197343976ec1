// The finished ROM image, and how the console finds its way in it.
// software/userland/manifest_to_rom.py, software/userland/src/updater/main.c

module RomImage {
  import opened Words
  import opened UpdateManifest
  import opened UpdaterSpec
  import opened RomStore

  /** The manifest's segment: below all data, on a 256-segment boundary.  The mask keeps sixteen
      bits, so a start below zero would come out near the top. */
  function ManifestSegment(start: int, n: nat): (s: nat)
    ensures s % 0x100 == 0 && s < 0x1_0000
  {
    (start - Segments(n + 4)) % 0x1_0000 / 0x100 * 0x100
  }

  /** The first segment of the image: 128 KiB, 256 KiB, 512 KiB or 1 MiB from the end. */
  function Lowest(segment: nat): (s: nat)
    ensures segment < 0x1_0000 ==> s <= segment
  {
    if segment >= 0xE000 then 0xE000
    else if segment >= 0xC000 then 0xC000
    else if segment >= 0x8000 then 0x8000
    else 0
  }

  /** The first segment of the updater's own program. */
  function Top(base: seq<u8>): int {
    0x1_0000 - Segments(|base|)
  }

  predicate Holds(img: seq<u8>, offset: int, data: seq<u8>) {
    0 <= offset && offset + |data| <= |img| && img[offset..offset + |data|] == data
  }

  function ManifestBytes(crc: seq<u8> -> u16, list: seq<u8>): seq<u8>
    requires |list| <= 0xFFFF
  {
    Le16(|list|) + Le16(crc(list)) + list
  }

  /** Everything that the builder promises about the file it writes. */
  ghost predicate IsImage(img: seq<u8>, crc: seq<u8> -> u16, base: seq<u8>, st: Store, list: seq<u8>)
    requires |list| <= 0xFFFF
  {
    var segment := ManifestSegment(st.start, |list|);
    var low := Lowest(segment);
    && |img| == (0x1_0000 - low) * 16
    && img[|img| - 10] == segment / 0x100
    && Holds(img, (segment - low) * 16, ManifestBytes(crc, list))
    && (forall k :: k in st.blocks ==> Holds(img, (k - low) * 16, st.blocks[k]))
    && HoldsBase(img, base)
  }

  /** The updater's program ends the image, apart from the footer byte. */
  predicate HoldsBase(img: seq<u8>, base: seq<u8>) {
    && 10 <= |img| && |base| <= |img|
    && forall i :: 0 <= i < |base| && i != |base| - 10 ==> img[|img| - |base| + i] == base[i]
  }

  /** Room for the manifest is left below the data. */
  predicate Roomy(st: Store, list: seq<u8>) {
    |list| <= 0xFFFF && Segments(|list| + 4) <= st.start
  }

  /** The bytes after the length and the checksum: version block, commands, final zero. */
  function RuleList(header: Version, cs: seq<Command>): seq<u8> {
    header + EncodeAll(cs) + [0]
  }

  /** The manifest, the blocks and the updater's program lie one above the other in the image. */
  lemma ManifestIsBelow(st: Store, base: seq<u8>, list: seq<u8>)
    requires Arranged(st, Top(base)) && Roomy(st, list) && base != []
    ensures var segment := ManifestSegment(st.start, |list|);
            && segment + Segments(|list| + 4) <= st.start
            && segment * 16 + 4 + |list| <= st.start * 16
            && Lowest(segment) <= segment
            && Top(base) * 16 <= 0x10_0000 - |base| && Top(base) < 0x1_0000
  {
  }

  lemma BlockIsInside(st: Store, top: int, k: int)
    requires Arranged(st, top) && k in st.blocks
    ensures st.start * 16 <= k * 16 && k * 16 + |st.blocks[k]| <= top * 16
  {
  }

  lemma BlocksAreApart(st: Store, top: int, k: int, l: int)
    requires Arranged(st, top) && k in st.blocks && l in st.blocks && k != l
    ensures k * 16 + |st.blocks[k]| <= l * 16 || l * 16 + |st.blocks[l]| <= k * 16
  {
    if k < l {
      assert k + Segments(|st.blocks[k]|) <= l;
    } else {
      assert l + Segments(|st.blocks[l]|) <= k;
    }
  }

  // ----- writing pieces -----

  /** The file after `data` is written at `offset`. */
  function Overwritten(s: seq<u8>, offset: nat, data: seq<u8>): (r: seq<u8>)
    requires offset + |data| <= |s|
    ensures |r| == |s| && Holds(r, offset, data)
    ensures forall i :: 0 <= i < |s| && !(offset <= i < offset + |data|) ==> r[i] == s[i]
  {
    s[..offset] + data + s[offset + |data|..]
  }

  /** What has been written so far: footer, manifest, program and the blocks of `done`. */
  ghost predicate PartImage(img: seq<u8>, crc: seq<u8> -> u16, base: seq<u8>, st: Store, list: seq<u8>, done: set<int>)
    requires |list| <= 0xFFFF
  {
    var segment := ManifestSegment(st.start, |list|);
    var low := Lowest(segment);
    && |img| == (0x1_0000 - low) * 16
    && img[|img| - 10] == segment / 0x100
    && Holds(img, (segment - low) * 16, ManifestBytes(crc, list))
    && (forall k :: k in st.blocks && k in done ==> Holds(img, (k - low) * 16, st.blocks[k]))
    && HoldsBase(img, base)
  }

  /** `t` is `img` with only bytes from `lo` up to `hi` rewritten. */
  ghost predicate Rewritten(img: seq<u8>, t: seq<u8>, lo: int, hi: int) {
    |t| == |img| && forall i :: 0 <= i < |img| && !(lo <= i < hi) ==> t[i] == img[i]
  }

  lemma BaseStill(img: seq<u8>, t: seq<u8>, base: seq<u8>, lo: int, hi: int)
    requires HoldsBase(img, base) && Rewritten(img, t, lo, hi)
    requires hi <= |img| - |base| && hi <= |img| - 16
    ensures HoldsBase(t, base) && t[|t| - 10] == img[|img| - 10]
  {
  }

  lemma PieceStill(img: seq<u8>, t: seq<u8>, offset: int, data: seq<u8>, lo: int, hi: int)
    requires Holds(img, offset, data) && Rewritten(img, t, lo, hi)
    requires offset + |data| <= lo || hi <= offset
    ensures Holds(t, offset, data)
  {
    assert t[offset..offset + |data|] == img[offset..offset + |data|];
  }

  lemma BlockStill(img: seq<u8>, t: seq<u8>, st: Store, top: int, low: int, k: int, l: int)
    requires Arranged(st, top) && k in st.blocks && l in st.blocks && k != l
    requires Rewritten(img, t, (k - low) * 16, (k - low) * 16 + |st.blocks[k]|)
    requires Holds(img, (l - low) * 16, st.blocks[l])
    ensures Holds(t, (l - low) * 16, st.blocks[l])
  {
    BlocksAreApart(st, top, k, l);
    hide Arranged, Rewritten, Holds;
    PieceStill(img, t, (l - low) * 16, st.blocks[l], (k - low) * 16, (k - low) * 16 + |st.blocks[k]|);
  }

  lemma BlockOffset(st: Store, base: seq<u8>, list: seq<u8>, k: int)
    requires Arranged(st, Top(base)) && Roomy(st, list) && base != [] && k in st.blocks
    ensures var segment := ManifestSegment(st.start, |list|);
            var low := Lowest(segment);
            var offset := (k - low) * 16;
            && (segment - low) * 16 + 4 + |list| <= offset
            && offset + |st.blocks[k]| <= (0x1_0000 - low) * 16 - |base|
            && offset + |st.blocks[k]| <= (0x1_0000 - low) * 16 - 16
  {
    ManifestIsBelow(st, base, list);
    BlockIsInside(st, Top(base), k);
    hide Arranged, ManifestSegment, Segments, Lowest;
  }

  lemma WriteBlock(img: seq<u8>, crc: seq<u8> -> u16, base: seq<u8>, st: Store, list: seq<u8>, done: set<int>, k: int)
    requires Arranged(st, Top(base)) && Roomy(st, list) && base != []
    requires PartImage(img, crc, base, st, list, done) && k in st.blocks
    ensures var offset := (k - Lowest(ManifestSegment(st.start, |list|))) * 16;
            && 0 <= offset && offset + |st.blocks[k]| <= |img|
            && PartImage(Overwritten(img, offset, st.blocks[k]), crc, base, st, list, done + {k})
  {
    BlockOffset(st, base, list, k);
    hide Arranged, Holds, HoldsBase, ManifestSegment, Lowest, Top, Roomy, PartImage;
    var low := Lowest(ManifestSegment(st.start, |list|));
    assert |img| == (0x1_0000 - low) * 16 by { PartLength(img, crc, base, st, list, done); }
    var offset := (k - low) * 16;
    IsRewritten(img, offset, st.blocks[k]);
    BlockWritten(img, Overwritten(img, offset, st.blocks[k]), crc, base, st, list, done, k);
  }

  lemma PartLength(img: seq<u8>, crc: seq<u8> -> u16, base: seq<u8>, st: Store, list: seq<u8>, done: set<int>)
    requires |list| <= 0xFFFF && PartImage(img, crc, base, st, list, done)
    ensures |img| == (0x1_0000 - Lowest(ManifestSegment(st.start, |list|))) * 16
  {
  }

  lemma BlockWritten(img: seq<u8>, t: seq<u8>, crc: seq<u8> -> u16, base: seq<u8>, st: Store, list: seq<u8>,
                     done: set<int>, k: int)
    requires Arranged(st, Top(base)) && Roomy(st, list) && base != []
    requires PartImage(img, crc, base, st, list, done) && k in st.blocks
    requires var offset := (k - Lowest(ManifestSegment(st.start, |list|))) * 16;
             Rewritten(img, t, offset, offset + |st.blocks[k]|) && Holds(t, offset, st.blocks[k])
    ensures PartImage(t, crc, base, st, list, done + {k})
  {
    BlockOffset(st, base, list, k);
    assert |t| == |img|;
    hide Arranged, Holds, HoldsBase, Segments, ManifestSegment, Lowest, Top, Roomy, Rewritten;
    var segment := ManifestSegment(st.start, |list|);
    var low := Lowest(segment);
    var offset := (k - low) * 16;
    var hi := offset + |st.blocks[k]|;
    BaseStill(img, t, base, offset, hi);
    assert |ManifestBytes(crc, list)| == 4 + |list|;
    hide ManifestBytes;
    PieceStill(img, t, (segment - low) * 16, ManifestBytes(crc, list), offset, hi);
    forall l | l in st.blocks && l in done + {k} ensures Holds(t, (l - low) * 16, st.blocks[l]) {
      if l != k {
        BlockStill(img, t, st, Top(base), low, k, l);
      }
    }
  }

  lemma IsRewritten(img: seq<u8>, offset: nat, data: seq<u8>)
    requires offset + |data| <= |img|
    ensures Rewritten(img, Overwritten(img, offset, data), offset, offset + |data|)
  {
  }

  /** The image before any block is written. */
  lemma WriteFirst(img: seq<u8>, crc: seq<u8> -> u16, base: seq<u8>, st: Store, list: seq<u8>)
    requires Arranged(st, Top(base)) && Roomy(st, list) && base != []
    requires var segment := ManifestSegment(st.start, |list|);
             |img| == (0x1_0000 - Lowest(segment)) * 16 && img[|img| - 10] == segment / 0x100 && HoldsBase(img, base)
    ensures var segment := ManifestSegment(st.start, |list|);
            var offset := (segment - Lowest(segment)) * 16;
            && offset + |ManifestBytes(crc, list)| <= |img|
            && PartImage(Overwritten(img, offset, ManifestBytes(crc, list)), crc, base, st, list, {})
  {
    hide Arranged, Holds, Segments, ManifestSegment, Lowest;
    ManifestIsBelow(st, base, list);
    assert |ManifestBytes(crc, list)| == 4 + |list|;
    assert st.start <= Top(base) by { TopIsAbove(st, base); }
  }

  lemma TopIsAbove(st: Store, base: seq<u8>)
    requires Arranged(st, Top(base))
    ensures st.start <= Top(base)
  {
  }
}
