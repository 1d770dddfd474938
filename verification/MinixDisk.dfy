/**
 From a prototype to a disk and back: mkfs builds a file system and writes it,
 mklisa wraps the file into a ProFile image, and minixfs finds the file system
 in that image, reads it and checks it.
 */
module MinixDisk {
  import opened Common
  import opened MinixImage
  import opened MinixModel
  import opened MinixSettled
  import opened MkfsTree
  import opened MinixPath
  import opened MinixCheck
  import opened MkfsCheck
  import opened MinixBytes
  import Profile

  /** A file system in a file of its own is not taken for a ProFile image. */
  lemma NotWrapped(im: Image)
    requires Packable(im)
    ensures |FileOf(im)| >= 2 * Profile.BLOCK532
    ensures Long(Profile.DataOf(FileOf(im), 1), 0) != Profile.MAGIC
  {
    hide Flat, Word;
    SuperReads(im);
    var s := FileOf(im);
    forall k | 0 <= k < BLOCK
      ensures s[k] == 0
    {
      FirstBlock(im, k);
    }
  }

  /** The first block of the file is empty. */
  lemma FirstBlock(im: Image, k: nat)
    requires Packable(im) && k < BLOCK
    ensures k < |FileOf(im)| && FileOf(im)[k] == 0
  {
    hide FileOf, Whole, Flat;
    MetaWordAt(im, 0, k / 2);
    assert Word(im.big, FileOf(im), k / 2) == 0;
    assert 2 * (k / 2) == k || 2 * (k / 2) + 1 == k;
  }

  lemma WholeComplete(im: Image, m: Model, proto: Proto)
    requires Packable(im) && Complete(im, m, proto)
    ensures Complete(Whole(im), m, proto)
  {
    hide Rep, Settled, BuiltNode, Packable;
    WholeRep(im, m);
  }

  /** All that the prototype has is found. */
  ghost predicate AllFound(im: Image, proto: Proto) {
    Shaped(im) && forall names :: PathFinds(im, proto, names)
  }

  /** minixfs on the bytes of an image that mkfs completed: read them and check. */
  method CheckBytes(data: seq<byte>, big: bool, ghost im: Image, ghost m: Model, ghost proto: Proto)
    returns (image: Image, report: Report)
    requires Packable(im) && Complete(im, m, proto) && im.big == big && data == FileOf(im)
    ensures image == Whole(im) && report == Problems([]) && AllFound(image, proto)
  {
    hide Packable, Complete, Parse, Consistent, PathFinds, FileOf;
    ParseBack(im);
    WholeComplete(im, m, proto);
    image := Parse(big, data).value;
    CompleteFinished(image, m, proto);
    FinishedConsistent(image, m);
    report := Check(image);
    EverythingFound(image, m, proto);
  }

  /** From the prototype to the file mkfs writes, and what minixfs makes of it. */
  method ThroughFile(blocks: nat, inodes: nat, big: bool, proto: Proto) returns (r: Option<(Image, Report)>)
    requires proto.PDir? && GoodProto(proto)
    ensures r.Some? <==> Fits(blocks, inodes, proto)
    ensures r.Some? ==> r.value.1 == Problems([]) && AllFound(r.value.0, proto)
  {
    hide Packable, Complete, AllFound, Fits, FileOf, Profile.DataOf;
    var image, m := Build(blocks, inodes, big, proto);
    if image.None? {
      return None;
    }
    var raw := FileOf(image.value);
    NotWrapped(image.value);
    var data := Profile.FindFs(raw);
    var seen, report := CheckBytes(data.value, big, image.value, m, proto);
    r := Some((seen, report));
  }

  lemma FileBlocks512(data: seq<byte>, blocks: nat)
    requires |data| == BLOCK * blocks
    ensures Profile.Blocks(data) == 2 * blocks && |data| % Profile.DATA == 0
  {
  }

  /** The same through a ProFile disk with a boot block and a boot image in front. */
  method ThroughDisk(blocks: nat, inodes: nat, big: bool, proto: Proto, boot: seq<byte>, image: seq<byte>, load: nat,
                     entry: nat, nblocks: nat)
    returns (r: Option<(Image, Report)>)
    requires proto.PDir? && GoodProto(proto) && (nblocks == 9728 || nblocks == 19456)
    ensures r.Some? <==> Fits(blocks, inodes, proto) && |boot| <= Profile.DATA && image != [] && load < WORD32
                         && entry < WORD32
                         && Profile.FIRST_IMAGE + Profile.Blocks(image) + 2 * blocks <= nblocks
    ensures r.Some? ==> r.value.1 == Problems([]) && AllFound(r.value.0, proto)
  {
    hide Packable, Complete, AllFound, Fits, FileOf, Profile.Blocks, GoodProto;
    var fs, m := Build(blocks, inodes, big, proto);
    if fs.None? {
      return None;
    }
    SuperReads(fs.value);
    FileBlocks512(FileOf(fs.value), blocks);
    var raw, data := Profile.WrapAndFind(boot, image, FileOf(fs.value), load, entry, nblocks);
    if raw.None? {
      return None;
    }
    var seen, report := CheckBytes(data.value, big, fs.value, m, proto);
    r := Some((seen, report));
  }
}
