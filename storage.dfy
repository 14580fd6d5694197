/** `src/blt/storage.py`: uploading a book's photos to the storage bucket
    and collecting their public URLs. The storage client is modelled as a
    log of the uploads it received. */
module Storage {
  import opened Text
  import opened Seqs
  import opened Ordering
  import opened Paths

  /** The suffixes `upload_photos_and_get_urls` uploads. */
  const UPLOAD_EXTS: set<string> := {".jpg", ".jpeg", ".png", ".webp"}

  const OCTET_STREAM: string := "application/octet-stream"

  predicate IsUploadable(e: Entry) { Lower(Suffix(e.name)) in UPLOAD_EXTS }

  /** `_guess_mime(ext)`: the content type for a suffix, in any case; one
      of the three image types, or octet-stream. */
  function GuessMime(ext: string): (r: string)
    ensures r in {"image/jpeg", "image/png", "image/webp", OCTET_STREAM}
    ensures r == "image/jpeg" <==> Lower(ext) in {".jpg", ".jpeg"}
  {
    var e := Lower(ext);
    if e == ".jpg" || e == ".jpeg" then "image/jpeg"
    else if e == ".png" then "image/png"
    else if e == ".webp" then "image/webp"
    else OCTET_STREAM
  }

  /** The case of the suffix does not matter. */
  lemma GuessMimeCaseInsensitive(ext: string)
    ensures GuessMime(Lower(ext)) == GuessMime(ext)
  {
    LowerIdempotent(ext);
  }

  /** The table knows exactly the suffixes that are uploaded. */
  lemma GuessMimeKnowsUploads(ext: string)
    ensures GuessMime(ext) != OCTET_STREAM <==> Lower(ext) in UPLOAD_EXTS
  {
  }

  /** `sorted([p for p in folder.glob("*") if p.suffix.lower() in {...}])`:
      paths of one folder compare as their names do. */
  function UploadOrder(folder: seq<Entry>): seq<Entry>
  {
    Sort(Filter(folder, IsUploadable), NameLt)
  }

  /** The files uploaded are the folder's files with an accepted suffix,
      each once, in ascending order of name. */
  lemma UploadOrderSpec(folder: seq<Entry>)
    ensures multiset(UploadOrder(folder)) == multiset(Filter(folder, IsUploadable))
    ensures Sorted(UploadOrder(folder), NameLt)
    ensures forall x :: x in UploadOrder(folder) ==> x in folder && IsUploadable(x)
  {
    NameLtStrictOrder();
    SortSorted(Filter(folder, IsUploadable), NameLt);
    forall x | x in UploadOrder(folder) ensures x in folder && IsUploadable(x) {
      assert x in multiset(Filter(folder, IsUploadable));
      FilterMember(folder, IsUploadable, x);
    }
  }

  /** `f"{book_slug}/{int(time())}_{i:02d}{p.suffix.lower()}"`. */
  function UploadKey(slug: string, t: nat, i: nat, name: string): string
  {
    slug + "/" + Decimal(t) + "_" + ZeroPad(i, 2) + Lower(Suffix(name))
  }

  /** The lower-cased suffix of an uploaded file starts with a dot. */
  lemma UploadSuffixDot(name: string)
    requires Lower(Suffix(name)) in UPLOAD_EXTS
    ensures |Lower(Suffix(name))| >= 2 && Lower(Suffix(name))[0] == '.'
  {
    SuffixShape(name);
    LowerKeepsNonLetters(Suffix(name), 0);
  }

  /** `p + d + "_" + z + s`, with d and z digit runs and s starting with a
      character that is not a digit, determines d, z and s. */
  lemma KeyFieldsSplit(p: string, d1: string, z1: string, s1: string, d2: string, z2: string, s2: string)
    requires AllDigits(d1) && AllDigits(z1) && AllDigits(d2) && AllDigits(z2)
    requires |s1| > 0 && !IsDigit(s1[0]) && |s2| > 0 && !IsDigit(s2[0])
    requires p + d1 + "_" + z1 + s1 == p + d2 + "_" + z2 + s2
    ensures d1 == d2 && z1 == z2 && s1 == s2
  {
    var r1, r2 := "_" + z1 + s1, "_" + z2 + s2;
    assert p + d1 + "_" + z1 + s1 == p + (d1 + r1);
    assert p + d2 + "_" + z2 + s2 == p + (d2 + r2);
    assert d1 + r1 == (p + (d1 + r1))[|p|..];
    assert d2 + r2 == (p + (d2 + r2))[|p|..];
    DigitRunSplit(d1, r1, d2, r2);
    assert z1 + s1 == r1[1..] && z2 + s2 == r2[1..];
    DigitRunSplit(z1, s1, z2, s2);
  }

  /** A key of an uploaded file gives back its time, its position and its
      suffix: the time is the digit run before '_', the position the digit
      run before the suffix's dot. */
  lemma UploadKeyInjective(slug: string, t1: nat, i1: nat, n1: string, t2: nat, i2: nat, n2: string)
    requires Lower(Suffix(n1)) in UPLOAD_EXTS && Lower(Suffix(n2)) in UPLOAD_EXTS
    requires UploadKey(slug, t1, i1, n1) == UploadKey(slug, t2, i2, n2)
    ensures t1 == t2 && i1 == i2 && Lower(Suffix(n1)) == Lower(Suffix(n2))
  {
    UploadSuffixDot(n1);
    UploadSuffixDot(n2);
    KeyFieldsSplit(slug + "/", Decimal(t1), ZeroPad(i1, 2), Lower(Suffix(n1)),
                   Decimal(t2), ZeroPad(i2, 2), Lower(Suffix(n2)));
    ZeroPadInjective(i1, i2, 2);
    DecimalRoundTrip(t1);
    DecimalRoundTrip(t2);
  }

  /** One call to the bucket's `upload`: the key, the content type sent,
      and the file whose bytes were read. */
  datatype Upload = Upload(key: string, contentType: string, source: string)

  /** The upload made for the i-th file (counting from 1) at time t. */
  function UploadOf(slug: string, t: nat, i: nat, e: Entry): Upload
  {
    Upload(UploadKey(slug, t, i, e.name), GuessMime(Suffix(e.name)), e.name)
  }

  /** The uploads for the first k files, `clock(j)` being the time read in
      pass j. */
  function Plan(slug: string, paths: seq<Entry>, clock: nat -> nat, k: nat): (r: seq<Upload>)
    requires k <= |paths|
    ensures |r| == k
  {
    if k == 0 then [] else Plan(slug, paths, clock, k - 1) + [UploadOf(slug, clock(k - 1), k, paths[k - 1])]
  }

  lemma {:induction false} PlanAt(slug: string, paths: seq<Entry>, clock: nat -> nat, k: nat, j: nat)
    requires k <= |paths| && j < k
    ensures Plan(slug, paths, clock, k)[j] == UploadOf(slug, clock(j), j + 1, paths[j])
  {
    if j < k - 1 {
      PlanAt(slug, paths, clock, k - 1, j);
    }
  }

  /** Upload j comes from file j, so the uploads keep the files' order, and
      every one is sent with an image content type. */
  lemma PlanFollowsFiles(slug: string, paths: seq<Entry>, clock: nat -> nat, j: nat)
    requires j < |paths| && IsUploadable(paths[j])
    ensures Plan(slug, paths, clock, |paths|)[j].source == paths[j].name
    ensures Plan(slug, paths, clock, |paths|)[j].contentType != OCTET_STREAM
  {
    PlanAt(slug, paths, clock, |paths|, j);
    GuessMimeKnowsUploads(Suffix(paths[j].name));
  }

  /** Upload j's key is that of position j + 1 at the time read in pass j. */
  lemma PlanKeyAt(slug: string, paths: seq<Entry>, clock: nat -> nat, j: nat)
    requires j < |paths|
    ensures Plan(slug, paths, clock, |paths|)[j].key == UploadKey(slug, clock(j), j + 1, paths[j].name)
  {
    PlanAt(slug, paths, clock, |paths|, j);
  }

  /** No two uploads of one call share a key, whatever the clock reads. */
  lemma PlanKeysDistinct(slug: string, paths: seq<Entry>, clock: nat -> nat, a: nat, b: nat)
    requires a < b < |paths| && IsUploadable(paths[a]) && IsUploadable(paths[b])
    ensures Plan(slug, paths, clock, |paths|)[a].key != Plan(slug, paths, clock, |paths|)[b].key
  {
    var plan := Plan(slug, paths, clock, |paths|);
    if plan[a].key == plan[b].key {
      PlanKeyAt(slug, paths, clock, a);
      PlanKeyAt(slug, paths, clock, b);
      UploadKeyInjective(slug, clock(a), a + 1, paths[a].name, clock(b), b + 1, paths[b].name);
    }
  }

  /** The public URL of each upload's key, in the order of the uploads. */
  function PublicUrls(plan: seq<Upload>, publicUrl: string -> string): (r: seq<string>)
    ensures |r| == |plan|
  {
    if plan == [] then [] else PublicUrls(plan[..|plan| - 1], publicUrl) + [publicUrl(plan[|plan| - 1].key)]
  }

  lemma PublicUrlsSnoc(plan: seq<Upload>, u: Upload, publicUrl: string -> string)
    ensures PublicUrls(plan + [u], publicUrl) == PublicUrls(plan, publicUrl) + [publicUrl(u.key)]
  {
    assert (plan + [u])[..|plan|] == plan;
  }

  /** URL j is the public URL of upload j's key. */
  lemma {:induction false} PublicUrlsAt(plan: seq<Upload>, publicUrl: string -> string, j: nat)
    requires j < |plan|
    ensures PublicUrls(plan, publicUrl)[j] == publicUrl(plan[j].key)
  {
    if j < |plan| - 1 {
      PublicUrlsAt(plan[..|plan| - 1], publicUrl, j);
    }
  }

  /** The storage bucket, as the log of uploads it has received. */
  class Bucket {
    var uploads: seq<Upload>

    constructor ()
      ensures uploads == []
    {
      uploads := [];
    }

    /** `sb.storage.from_(bucket).upload(key, data, {"content-type": ...})`. */
    method Put(key: string, contentType: string, source: string)
      modifies this
      ensures uploads == old(uploads) + [Upload(key, contentType, source)]
    {
      uploads := uploads + [Upload(key, contentType, source)];
    }

    /** `upload_photos_and_get_urls(folder, book_slug)`, with `clock(j)` the
        value of `int(time())` in pass j and `publicUrl` the bucket's
        `get_public_url`: one upload per accepted file, in name order, and
        its public URL in the same position of the result. */
    method UploadPhotosAndGetUrls(folder: seq<Entry>, slug: string, clock: nat -> nat, publicUrl: string -> string)
      returns (urls: seq<string>)
      modifies this
      ensures uploads == old(uploads) + Plan(slug, UploadOrder(folder), clock, |UploadOrder(folder)|)
      ensures urls == PublicUrls(Plan(slug, UploadOrder(folder), clock, |UploadOrder(folder)|), publicUrl)
    {
      var paths := UploadOrder(folder);
      urls := [];
      var i := 0;
      while i < |paths|
        invariant 0 <= i <= |paths|
        invariant uploads == old(uploads) + Plan(slug, paths, clock, i)
        invariant urls == PublicUrls(Plan(slug, paths, clock, i), publicUrl)
      {
        var p := paths[i];
        var key := UploadKey(slug, clock(i), i + 1, p.name);
        ghost var plan := Plan(slug, paths, clock, i);
        ghost var u := UploadOf(slug, clock(i), i + 1, p);
        assert Plan(slug, paths, clock, i + 1) == plan + [u];
        PublicUrlsSnoc(plan, u, publicUrl);
        Put(key, GuessMime(Suffix(p.name)), p.name);
        assert uploads == old(uploads) + (plan + [u]);
        urls := urls + [publicUrl(key)];
        i := i + 1;
      }
    }
  }
}
