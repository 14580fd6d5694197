/** `src/blt/heic_convert.py`: converting HEIC/HEIF photos to JPEG, first
    with Pillow (and the pillow-heif decoder as a fallback), then with a
    portable ffmpeg whose location is looked up once and cached.

    The image libraries, the ffmpeg process and the file system's answers
    are an `Env` record of oracles; the module's mutable state (the cached
    ffmpeg location) and the files it creates and deletes are the fields of
    a `Converter`. */
module HeicConvert {
  import opened Wrappers
  import opened Text
  import opened Seqs
  import opened Ordering
  import opened Paths

  /** `IMG_EXTS_HEIC`. */
  const HEIC_EXTS: set<string> := {".heic", ".heif"}

  /** `p.suffix.lower() in IMG_EXTS_HEIC`. */
  predicate IsHeicName(name: string) { Lower(Suffix(name)) in HEIC_EXTS }

  /** `src.with_suffix(".jpg")`: same directory, same stem. */
  function JpegDest(src: Path): Path
  {
    Path(src.dirs, WithSuffix(src.name, ".jpg"))
  }

  /** The JPEG of a HEIC file sits beside it with the stem kept and the
      suffix ".jpg"; it is a different file that is not itself HEIC. */
  lemma JpegDestSpec(src: Path)
    requires IsHeicName(src.name)
    ensures JpegDest(src).dirs == src.dirs
    ensures Stem(JpegDest(src).name) == Stem(src.name)
    ensures Suffix(JpegDest(src).name) == ".jpg"
    ensures !IsHeicName(JpegDest(src).name)
    ensures JpegDest(src) != src
  {
    assert |Lower(Suffix(src.name))| == |Suffix(src.name)|;
    WithSuffixRoundTrip(src.name, ".jpg");
    assert Lower(".jpg") == ".jpg";
  }

  /** What `Image.open(src)` does: it opens the file, raises
      `UnidentifiedImageError`, or raises another error, which nobody in
      this module catches. */
  datatype OpenResult = Opened | Unidentified | OpenError

  /** What `subprocess.run(cmd)` does: the process ran, with its return
      code and whether it wrote the destination, or starting it raised. */
  datatype RunResult = Ran(code: int, wroteDst: bool) | RunError

  /** The world outside the module:
      - `heifAvailable`: the pillow-heif import and registration succeeded
        (`_HAVE_HEIF`, and then `open_heif` is bound);
      - `pilOpen(src)`: `Image.open(src)`;
      - `heifDecode(src)`: `open_heif(...)` and `to_pillow()` (or the
        `frombytes` fallback) succeed;
      - `save(src, dst, quality)`: `convert("RGB")` and the JPEG save succeed;
      - `locate`: `imageio_ffmpeg.get_ffmpeg_exe()`, None when it (or the
        import) raises;
      - `run(exe, src, dst)`: ffmpeg run as
        `exe -y -i src -frames:v 1 -q:v 2 dst` (the quality is not passed);
      - `unlink(src)`: `src.unlink()` succeeds. */
  datatype Env = Env(
    heifAvailable: bool,
    pilOpen: Path -> OpenResult,
    heifDecode: Path -> bool,
    save: (Path, Path, int) -> bool,
    locate: Option<string>,
    run: (string, Path, Path) -> RunResult,
    unlink: Path -> bool)

  /** `_heic_to_jpeg_pillow(src, dst, quality)`; an error of `Image.open`
      other than `UnidentifiedImageError` propagates, and a conversion never
      succeeds without a successful save. */
  function PillowAttempt(env: Env, src: Path, dst: Path, quality: int): (r: Outcome<bool>)
    ensures r.Raised? <==> env.pilOpen(src) == OpenError
    ensures r == Returned(true) ==> env.save(src, dst, quality)
  {
    match env.pilOpen(src)
    case OpenError => Raised
    case Opened => Returned(env.save(src, dst, quality))
    case Unidentified =>
      if env.heifAvailable && IsHeicName(src.name) then
        Returned(env.heifDecode(src) && env.save(src, dst, quality))
      else Returned(false)
  }

  /** pillow-heif is consulted only for a HEIC name that Pillow could not
      identify: otherwise two environments that agree on what `Image.open`
      and the save do give the same result, whatever their pillow-heif
      availability and decoder. */
  lemma PillowHeifOnlyForHeic(e1: Env, e2: Env, src: Path, dst: Path, quality: int)
    requires e1.pilOpen(src) == e2.pilOpen(src)
    requires e1.save(src, dst, quality) == e2.save(src, dst, quality)
    requires !IsHeicName(src.name) || e1.pilOpen(src) != Unidentified
    ensures PillowAttempt(e1, src, dst, quality) == PillowAttempt(e2, src, dst, quality)
  {
  }

  /** An image Pillow cannot identify and whose name is not HEIC is
      refused without raising and without a save, whatever the decoders
      and the save would do. */
  lemma PillowUnidentifiedOther(env: Env, src: Path, dst: Path, quality: int)
    requires env.pilOpen(src) == Unidentified && !IsHeicName(src.name)
    ensures PillowAttempt(env, src, dst, quality) == Returned(false)
  {
  }

  /** Without pillow-heif (`_HAVE_HEIF` false) the Pillow route succeeds
      exactly when Pillow itself opens the image and the save succeeds. */
  lemma PillowWithoutHeif(env: Env, src: Path, dst: Path, quality: int)
    requires !env.heifAvailable
    ensures PillowAttempt(env, src, dst, quality) == Returned(true) <==>
      env.pilOpen(src) == Opened && env.save(src, dst, quality)
  {
  }

  /** The state the conversions change: `_FFMPEG_EXE`, how many times
      `get_ffmpeg_exe` has been called, the set of existing files, the
      files handed to the decoders, in order, and the files
      `_heic_to_jpeg_ffmpeg` was called for, in order. */
  datatype ConvState = ConvState(exe: Option<string>, lookups: nat, files: set<Path>, attempts: seq<Path>, ffmpegRuns: seq<Path>)

  /** `if _FFMPEG_EXE:` — set and not the empty string. */
  predicate Cached(exe: Option<string>) { exe.Some? && exe.value != "" }

  /** `_get_ffmpeg_exe()`. */
  function ExeLookup(st: ConvState, env: Env): (Outcome<string>, ConvState)
  {
    if Cached(st.exe) then (Returned(st.exe.value), st)
    else
      var st1 := st.(lookups := st.lookups + 1);
      match env.locate
      case None => (Raised, st1)
      case Some(e) => (Returned(e), st1.(exe := Some(e)))
  }

  /** A cached location is returned without a lookup. */
  lemma ExeLookupCached(st: ConvState, env: Env)
    requires Cached(st.exe)
    ensures ExeLookup(st, env) == (Returned(st.exe.value), st)
  {
  }

  /** Once a lookup has found a non-empty location, no later call looks
      it up again, and every later call returns the same location. */
  lemma ExeLookupOnce(st: ConvState, env: Env)
    requires env.locate.Some? && env.locate.value != ""
    ensures Cached(ExeLookup(st, env).1.exe)
    ensures ExeLookup(ExeLookup(st, env).1, env) == (ExeLookup(st, env).0, ExeLookup(st, env).1)
  {
  }

  /** `_heic_to_jpeg_ffmpeg(src, dst)`: any error counts as a failure. */
  function FfmpegAttempt(st: ConvState, env: Env, src: Path, dst: Path): (bool, ConvState)
  {
    var (e, st1) := ExeLookup(st.(ffmpegRuns := st.ffmpegRuns + [src]), env);
    if e.Raised? then (false, st1)
    else match env.run(e.value, src, dst)
      case RunError => (false, st1)
      case Ran(code, wrote) =>
        var st2 := if wrote then st1.(files := st1.files + {dst}) else st1;
        (code == 0 && dst in st2.files, st2)
  }

  /** ffmpeg succeeds exactly when its location was found, the process
      ran and returned 0, and the destination exists afterwards; it adds at
      most the destination to the files and hands nothing to the decoders. */
  lemma FfmpegAttemptSpec(st: ConvState, env: Env, src: Path, dst: Path)
    ensures var (ok, st2) := FfmpegAttempt(st, env, src, dst);
      var (e, _) := ExeLookup(st, env);
      (ok <==> e.Returned? && env.run(e.value, src, dst).Ran? && env.run(e.value, src, dst).code == 0 && dst in st2.files) &&
      st.files <= st2.files <= st.files + {dst} &&
      st2.attempts == st.attempts &&
      st2.ffmpegRuns == st.ffmpegRuns + [src] &&
      st2.exe == ExeLookup(st, env).1.exe && st2.lookups == ExeLookup(st, env).1.lookups
  {
  }

  /** `convert_file(src, delete_src, quality)`. */
  function FileConversion(st: ConvState, env: Env, src: Path, deleteSrc: bool, quality: int): (Outcome<Option<Path>>, ConvState)
  {
    if !IsHeicName(src.name) then (Returned(None), st)
    else
      var dst := JpegDest(src);
      var st0 := st.(attempts := st.attempts + [src]);
      match PillowAttempt(env, src, dst, quality)
      case Raised => (Raised, st0)
      case Returned(viaPillow) =>
        var (ok, st1) := if viaPillow then (true, st0.(files := st0.files + {dst})) else FfmpegAttempt(st0, env, src, dst);
        if !ok then (Returned(None), st1)
        else if deleteSrc && env.unlink(src) then (Returned(Some(dst)), st1.(files := st1.files - {src}))
        else (Returned(Some(dst)), st1)
  }

  /** A file whose suffix is not HEIC in any case is left alone: None, and
      no state changes. A HEIC file is handed to the decoders exactly once. */
  lemma FileConversionGate(st: ConvState, env: Env, src: Path, deleteSrc: bool, quality: int)
    ensures !IsHeicName(src.name) ==> FileConversion(st, env, src, deleteSrc, quality) == (Returned(None), st)
    ensures IsHeicName(src.name) ==> FileConversion(st, env, src, deleteSrc, quality).1.attempts == st.attempts + [src]
  {
    if IsHeicName(src.name) {
      FfmpegAttemptSpec(st.(attempts := st.attempts + [src]), env, src, JpegDest(src));
    }
  }

  /** A returned path is the ".jpg" beside a HEIC source, and it exists. */
  lemma FileConversionResult(st: ConvState, env: Env, src: Path, deleteSrc: bool, quality: int)
    requires FileConversion(st, env, src, deleteSrc, quality).0.Returned?
    requires FileConversion(st, env, src, deleteSrc, quality).0.value.Some?
    ensures IsHeicName(src.name)
    ensures FileConversion(st, env, src, deleteSrc, quality).0.value.value == JpegDest(src)
    ensures JpegDest(src) in FileConversion(st, env, src, deleteSrc, quality).1.files
  {
    JpegDestSpec(src);
    FfmpegAttemptSpec(st.(attempts := st.attempts + [src]), env, src, JpegDest(src));
  }

  /** The source disappears exactly when the conversion succeeded,
      deletion was requested and `unlink` succeeded; a failed unlink is
      swallowed and a failed conversion keeps the source. */
  lemma FileConversionSource(st: ConvState, env: Env, src: Path, deleteSrc: bool, quality: int)
    ensures var (r, st1) := FileConversion(st, env, src, deleteSrc, quality);
      (src in st1.files <==> src in st.files && !(r.Returned? && r.value.Some? && deleteSrc && env.unlink(src)))
  {
    if IsHeicName(src.name) {
      JpegDestSpec(src);
      FfmpegAttemptSpec(st.(attempts := st.attempts + [src]), env, src, JpegDest(src));
    }
  }

  /** ffmpeg is run for a file exactly when it is HEIC and Pillow returned
      False (the `or` of `convert_file`): once then, never otherwise.
      Otherwise the cached location and the lookup count stay as they were;
      when it is run and no location is cached, the location is looked up. */
  lemma FfmpegOnlyAfterPillow(st: ConvState, env: Env, src: Path, deleteSrc: bool, quality: int)
    ensures FileConversion(st, env, src, deleteSrc, quality).1.ffmpegRuns ==
      st.ffmpegRuns + (if IsHeicName(src.name) && PillowAttempt(env, src, JpegDest(src), quality) == Returned(false) then [src] else [])
    ensures IsHeicName(src.name) && PillowAttempt(env, src, JpegDest(src), quality) != Returned(false) ==>
      FileConversion(st, env, src, deleteSrc, quality).1.exe == st.exe &&
      FileConversion(st, env, src, deleteSrc, quality).1.lookups == st.lookups
    ensures IsHeicName(src.name) && PillowAttempt(env, src, JpegDest(src), quality) == Returned(false) && !Cached(st.exe) ==>
      FileConversion(st, env, src, deleteSrc, quality).1.lookups == st.lookups + 1
  {
    if IsHeicName(src.name) {
      FfmpegAttemptSpec(st.(attempts := st.attempts + [src]), env, src, JpegDest(src));
    }
  }

  /** `_heic_to_jpeg_pillow(...) or _heic_to_jpeg_ffmpeg(...)`: a HEIC file
      is converted exactly when Pillow converted it, or Pillow returned
      False and ffmpeg then succeeded. */
  lemma FileConversionSucceeds(st: ConvState, env: Env, src: Path, deleteSrc: bool, quality: int)
    requires IsHeicName(src.name)
    ensures var st0 := st.(attempts := st.attempts + [src]);
      FileConversion(st, env, src, deleteSrc, quality).0 == Returned(Some(JpegDest(src))) <==>
        PillowAttempt(env, src, JpegDest(src), quality) == Returned(true) ||
        (PillowAttempt(env, src, JpegDest(src), quality) == Returned(false) && FfmpegAttempt(st0, env, src, JpegDest(src)).0)
  {
  }

  /** With a location to find, one conversion either leaves the lookups
      and the cache alone, or performs the first lookup and caches it. */
  lemma FileConversionLookups(st: ConvState, env: Env, src: Path, deleteSrc: bool, quality: int)
    requires env.locate.Some? && env.locate.value != ""
    ensures var st1 := FileConversion(st, env, src, deleteSrc, quality).1;
      (st1.lookups == st.lookups && st1.exe == st.exe) ||
      (!Cached(st.exe) && st1.lookups == st.lookups + 1 && Cached(st1.exe))
  {
  }

  /** One entry of the walked folder. */
  datatype Node = Node(path: Path, isFile: bool)

  /** `p.is_file() and p.suffix.lower() in IMG_EXTS_HEIC`. */
  predicate IsHeicFile(n: Node) { n.isFile && IsHeicName(n.path.name) }

  predicate AtTop(n: Node) { n.path.dirs == [] }

  predicate NodeLt(a: Node, b: Node) { PathLt(a.path, b.path) }

  // The recursive pattern of `folder.glob` ("**" followed by "/*") yields
  // every entry below the folder, the pattern "*" only those directly in it.
  function Globbed(listing: seq<Node>, recursive: bool): seq<Node>
  {
    if recursive then listing else Filter(listing, AtTop)
  }

  /** `sorted(folder.glob(pattern))`. */
  function FolderOrder(listing: seq<Node>, recursive: bool): seq<Node>
  {
    Sort(Globbed(listing, recursive), NodeLt)
  }

  /** The walk visits the globbed entries, each once, in path order; a
      walk that is not recursive sees only the folder's own entries. */
  lemma FolderOrderSpec(listing: seq<Node>, recursive: bool)
    ensures multiset(FolderOrder(listing, recursive)) == multiset(Globbed(listing, recursive))
    ensures Sorted(FolderOrder(listing, recursive), NodeLt)
    ensures !recursive ==> forall n :: n in FolderOrder(listing, recursive) ==> n in listing && AtTop(n)
  {
    PathLtStrictOrder();
    assert StrictOrder(NodeLt);
    SortSorted(Globbed(listing, recursive), NodeLt);
    if !recursive {
      forall n | n in FolderOrder(listing, recursive) ensures n in listing && AtTop(n) {
        assert n in multiset(Filter(listing, AtTop));
        FilterMember(listing, AtTop, n);
      }
    }
  }

  /** `[p for p in nodes if p.is_file() and p.suffix.lower() in IMG_EXTS_HEIC]`. */
  function HeicPaths(nodes: seq<Node>): seq<Path>
  {
    if nodes == [] then []
    else HeicPaths(nodes[..|nodes| - 1]) + (if IsHeicFile(nodes[|nodes| - 1]) then [nodes[|nodes| - 1].path] else [])
  }

  /** The HEIC files among `nodes` that Pillow does not convert (it returns
      False), in order: those `convert_folder` hands to ffmpeg. */
  function PillowFailures(env: Env, nodes: seq<Node>, quality: int): seq<Path>
  {
    if nodes == [] then []
    else
      var n := nodes[|nodes| - 1];
      PillowFailures(env, nodes[..|nodes| - 1], quality) +
        (if IsHeicFile(n) && PillowAttempt(env, n.path, JpegDest(n.path), quality) == Returned(false) then [n.path] else [])
  }

  /** The JPEG of each path, in order. */
  function Dests(s: seq<Path>): (r: seq<Path>)
    ensures |r| == |s|
  {
    if s == [] then [] else Dests(s[..|s| - 1]) + [JpegDest(s[|s| - 1])]
  }

  /** One pass of `convert_folder`'s loop, from the list so far and the
      state: a HEIC file is converted and its JPEG appended if one was
      returned; other entries are skipped; an exception ends the loop. */
  function FolderStep(prev: (Outcome<seq<Path>>, ConvState), env: Env, n: Node, deleteSrc: bool, quality: int): (Outcome<seq<Path>>, ConvState)
  {
    if prev.0.Raised? || !IsHeicFile(n) then prev
    else
      var next := FileConversion(prev.1, env, n.path, deleteSrc, quality);
      match next.0
      case Raised => (Raised, next.1)
      case Returned(out) => (Returned(prev.0.value + (if out.Some? then [out.value] else [])), next.1)
  }

  /** The loop of `convert_folder` over `nodes` (already sorted): the list
      of created JPEGs, or the exception that ended it. */
  function FolderConversion(st: ConvState, env: Env, nodes: seq<Node>, deleteSrc: bool, quality: int): (Outcome<seq<Path>>, ConvState)
  {
    if nodes == [] then (Returned([]), st)
    else FolderStep(FolderConversion(st, env, nodes[..|nodes| - 1], deleteSrc, quality), env, nodes[|nodes| - 1], deleteSrc, quality)
  }

  lemma FolderConversionPrefix(st: ConvState, env: Env, nodes: seq<Node>, i: nat, deleteSrc: bool, quality: int)
    requires i < |nodes|
    ensures FolderConversion(st, env, nodes[..i + 1], deleteSrc, quality) ==
      FolderStep(FolderConversion(st, env, nodes[..i], deleteSrc, quality), env, nodes[i], deleteSrc, quality)
  {
    assert nodes[..i + 1][..i] == nodes[..i];
  }

  /** Once an exception ends the loop, the later entries change nothing. */
  lemma {:induction false} FolderRaisedStays(st: ConvState, env: Env, nodes: seq<Node>, k: nat, deleteSrc: bool, quality: int)
    requires k <= |nodes| && FolderConversion(st, env, nodes[..k], deleteSrc, quality).0.Raised?
    ensures FolderConversion(st, env, nodes, deleteSrc, quality) == FolderConversion(st, env, nodes[..k], deleteSrc, quality)
    decreases |nodes| - k
  {
    if k < |nodes| {
      var init := nodes[..|nodes| - 1];
      assert init[..k] == nodes[..k];
      FolderRaisedStays(st, env, init, k, deleteSrc, quality);
    } else {
      assert nodes[..k] == nodes;
    }
  }

  /** A walk that finishes has handed exactly the HEIC files to the
      decoders, each once, in the walk's order; nothing else was handed. */
  lemma {:induction false} FolderAttempts(st: ConvState, env: Env, nodes: seq<Node>, deleteSrc: bool, quality: int)
    requires FolderConversion(st, env, nodes, deleteSrc, quality).0.Returned?
    ensures FolderConversion(st, env, nodes, deleteSrc, quality).1.attempts == st.attempts + HeicPaths(nodes)
  {
    if nodes != [] {
      var init := nodes[..|nodes| - 1];
      var (r0, st0) := FolderConversion(st, env, init, deleteSrc, quality);
      FolderAttempts(st, env, init, deleteSrc, quality);
      var n := nodes[|nodes| - 1];
      if IsHeicFile(n) {
        FileConversionGate(st0, env, n.path, deleteSrc, quality);
      }
    }
  }

  /** A walk that finishes has run ffmpeg exactly for the HEIC files that
      Pillow did not convert, each once, in the walk's order. */
  lemma {:induction false} FolderFfmpegRuns(st: ConvState, env: Env, nodes: seq<Node>, deleteSrc: bool, quality: int)
    requires FolderConversion(st, env, nodes, deleteSrc, quality).0.Returned?
    ensures FolderConversion(st, env, nodes, deleteSrc, quality).1.ffmpegRuns == st.ffmpegRuns + PillowFailures(env, nodes, quality)
  {
    if nodes != [] {
      var init := nodes[..|nodes| - 1];
      var (r0, st0) := FolderConversion(st, env, init, deleteSrc, quality);
      FolderFfmpegRuns(st, env, init, deleteSrc, quality);
      var n := nodes[|nodes| - 1];
      FfmpegOnlyAfterPillow(st0, env, n.path, deleteSrc, quality);
      if !IsHeicFile(n) || PillowAttempt(env, n.path, JpegDest(n.path), quality) != Returned(false) {
        assert PillowFailures(env, init, quality) + [] == PillowFailures(env, init, quality);
      }
    }
  }

  /** The created list is the JPEGs of some of the HEIC files, in the
      walk's order: those returned by `S`, a subsequence of the HEIC files. */
  lemma {:induction false} FolderCreated(st: ConvState, env: Env, nodes: seq<Node>, deleteSrc: bool, quality: int)
    returns (s: seq<Path>)
    requires FolderConversion(st, env, nodes, deleteSrc, quality).0.Returned?
    ensures SubseqOf(s, HeicPaths(nodes))
    ensures FolderConversion(st, env, nodes, deleteSrc, quality).0.value == Dests(s)
  {
    if nodes == [] {
      s := [];
    } else {
      var init := nodes[..|nodes| - 1];
      var (r0, st0) := FolderConversion(st, env, init, deleteSrc, quality);
      var s0 := FolderCreated(st, env, init, deleteSrc, quality);
      var n := nodes[|nodes| - 1];
      if !IsHeicFile(n) {
        s := s0;
        assert HeicPaths(init) + [] == HeicPaths(init);
      } else {
        var next := FileConversion(st0, env, n.path, deleteSrc, quality);
        if next.0.value.Some? {
          FileConversionResult(st0, env, n.path, deleteSrc, quality);
          s := s0 + [n.path];
          SubseqTake(s0, HeicPaths(init), n.path);
          assert s[..|s| - 1] == s0;
        } else {
          s := s0;
          assert r0.value + [] == r0.value;
          SubseqSkip(s0, HeicPaths(init), n.path);
        }
      }
    }
  }

  /** With a location to find, a whole walk looks it up at most once, and
      not at all when it is already cached. */
  lemma {:induction false} FolderLookups(st: ConvState, env: Env, nodes: seq<Node>, deleteSrc: bool, quality: int)
    requires env.locate.Some? && env.locate.value != ""
    ensures var st1 := FolderConversion(st, env, nodes, deleteSrc, quality).1;
      (st1.lookups == st.lookups && st1.exe == st.exe) ||
      (!Cached(st.exe) && st1.lookups == st.lookups + 1 && Cached(st1.exe))
  {
    if nodes != [] {
      var init := nodes[..|nodes| - 1];
      var (r0, st0) := FolderConversion(st, env, init, deleteSrc, quality);
      FolderLookups(st, env, init, deleteSrc, quality);
      var n := nodes[|nodes| - 1];
      if !r0.Raised? && IsHeicFile(n) {
        FileConversionLookups(st0, env, n.path, deleteSrc, quality);
      }
    }
  }

  /** The module's state and the part of the file system it touches. */
  class Converter {
    /** `_FFMPEG_EXE`. */
    var exe: Option<string>
    /** How many times `get_ffmpeg_exe` has been called. */
    var lookups: nat
    /** The files that exist. */
    var files: set<Path>
    /** The files handed to the decoders, in order. */
    var attempts: seq<Path>
    /** The files handed to ffmpeg, in order. */
    var ffmpegRuns: seq<Path>

    function State(): ConvState
      reads this
    {
      ConvState(exe, lookups, files, attempts, ffmpegRuns)
    }

    /** At import time nothing is cached. */
    constructor (existing: set<Path>)
      ensures State() == ConvState(None, 0, existing, [], [])
    {
      exe := None;
      lookups := 0;
      files := existing;
      attempts := [];
      ffmpegRuns := [];
    }

    /** `_get_ffmpeg_exe()`. */
    method GetFfmpegExe(env: Env) returns (r: Outcome<string>)
      modifies this
      ensures (r, State()) == ExeLookup(old(State()), env)
    {
      if exe.Some? && exe.value != "" {
        return Returned(exe.value);
      }
      lookups := lookups + 1;
      match env.locate
      case None => r := Raised;
      case Some(e) =>
        exe := Some(e);
        r := Returned(e);
    }

    /** `_heic_to_jpeg_ffmpeg(src, dst)`. */
    method HeicToJpegFfmpeg(env: Env, src: Path, dst: Path) returns (ok: bool)
      modifies this
      ensures (ok, State()) == FfmpegAttempt(old(State()), env, src, dst)
    {
      ffmpegRuns := ffmpegRuns + [src];
      var e := GetFfmpegExe(env);
      if e.Raised? {
        return false;
      }
      match env.run(e.value, src, dst)
      case RunError => ok := false;
      case Ran(code, wrote) =>
        if wrote {
          files := files + {dst};
        }
        ok := code == 0 && dst in files;
    }

    /** `convert_file(src, delete_src, quality)`. */
    method ConvertFile(env: Env, src: Path, deleteSrc: bool, quality: int) returns (r: Outcome<Option<Path>>)
      modifies this
      ensures (r, State()) == FileConversion(old(State()), env, src, deleteSrc, quality)
    {
      if !IsHeicName(src.name) {
        return Returned(None);
      }
      var dst := JpegDest(src);
      attempts := attempts + [src];
      var viaPillow := PillowAttempt(env, src, dst, quality);
      if viaPillow.Raised? {
        return Raised;
      }
      var ok := viaPillow.value;
      if ok {
        files := files + {dst};
      } else {
        ok := HeicToJpegFfmpeg(env, src, dst);
      }
      if !ok {
        return Returned(None);
      }
      if deleteSrc && env.unlink(src) {
        files := files - {src};
      }
      r := Returned(Some(dst));
    }

    /** `convert_folder(folder, recursive, delete_src, quality)` over the
        folder's `listing`. */
    method ConvertFolder(env: Env, listing: seq<Node>, recursive: bool, deleteSrc: bool, quality: int)
      returns (r: Outcome<seq<Path>>)
      modifies this
      ensures (r, State()) == FolderConversion(old(State()), env, FolderOrder(listing, recursive), deleteSrc, quality)
    {
      var nodes := FolderOrder(listing, recursive);
      ghost var st := State();
      var created: seq<Path> := [];
      var i := 0;
      while i < |nodes|
        invariant 0 <= i <= |nodes|
        invariant (Returned(created), State()) == FolderConversion(st, env, nodes[..i], deleteSrc, quality)
      {
        var n := nodes[i];
        FolderConversionPrefix(st, env, nodes, i, deleteSrc, quality);
        ghost var prev := (Returned(created), State());
        if n.isFile && IsHeicName(n.path.name) {
          var out := ConvertFile(env, n.path, deleteSrc, quality);
          assert (out, State()) == FileConversion(prev.1, env, n.path, deleteSrc, quality);
          if out.Raised? {
            FolderRaisedStays(st, env, nodes, i + 1, deleteSrc, quality);
            return Raised;
          }
          if out.value.Some? {
            created := created + [out.value.value];
          } else {
            assert created + [] == created;
          }
          assert (Returned(created), State()) == FolderStep(prev, env, n, deleteSrc, quality);
        }
        i := i + 1;
      }
      assert nodes[..i] == nodes;
      r := Returned(created);
    }
  }
}
