/** `src/blt/utils/images.py`: choosing the n most recent images of a
    folder. */
module Images {
  import opened Text
  import opened Seqs
  import opened Paths

  /** The extensions `pick_last_n_images` accepts (HEIC is not among them). */
  const PICK_EXTS: set<string> := {".jpg", ".jpeg", ".png", ".webp"}

  predicate IsPickable(e: Entry) { Lower(Suffix(e.name)) in PICK_EXTS }

  /** The folder's images, oldest first. */
  function ImagesByMtime(folder: seq<Entry>): seq<Entry>
  {
    ByMtime(Filter(folder, IsPickable))
  }

  /** `pick_last_n_images(folder, n)`: `imgs[-n:]` when at least n images
      exist, `[]` otherwise. */
  function PickLastNImages(folder: seq<Entry>, n: int): (r: seq<Entry>)
    ensures var imgs := ImagesByMtime(folder);
      && (|imgs| < n ==> r == [])
      && (0 < n <= |imgs| ==> |r| == n && r == imgs[|imgs| - n..])
      && (n == 0 ==> r == imgs)
      && (n < 0 ==> r == imgs[Min(-n, |imgs|)..])
  {
    var imgs := ImagesByMtime(folder);
    if |imgs| >= n then LastN(imgs, n) else []
  }

  /** For 1 <= n <= the number of images, the result is n of the folder's
      images, oldest first, no image left out is newer than an image picked,
      and the images left out followed by those picked are all of them in
      order: these are the n latest. (`ImagesByMtime` is a permutation of
      the folder's images by the contract of `ByMtime`.) */
  lemma {:induction false} PickLastNAreLatest(folder: seq<Entry>, n: int)
    requires 0 < n <= |ImagesByMtime(folder)|
    ensures |PickLastNImages(folder, n)| == n
    ensures Ascending(PickLastNImages(folder, n))
    ensures var imgs := ImagesByMtime(folder);
      NoNewer(imgs[..|imgs| - n], PickLastNImages(folder, n))
    ensures var imgs := ImagesByMtime(folder);
      imgs[..|imgs| - n] + PickLastNImages(folder, n) == imgs
  {
    var imgs := ImagesByMtime(folder);
    ByMtimeAscending(Filter(folder, IsPickable));
    LatestSuffix(imgs, n);
    assert PickLastNImages(folder, n) == imgs[|imgs| - n..];
  }

  /** Every image picked, for any n, is one of the folder's images with an
      accepted extension (so never a `.heic` or `.heif` file). */
  lemma PickOnlyAccepted(folder: seq<Entry>, n: int)
    ensures forall x :: x in PickLastNImages(folder, n) ==>
      x in folder && Lower(Suffix(x.name)) in PICK_EXTS
  {
    var pool := Filter(folder, IsPickable);
    var imgs := ImagesByMtime(folder);
    var r := PickLastNImages(folder, n);
    assert forall x :: x in r ==> x in imgs;
    forall x | x in r
      ensures x in folder && IsPickable(x)
    {
      assert x in multiset(pool);
      FilterMember(folder, IsPickable, x);
    }
  }
}
