/** `src/blt/group_photos.py`: moving photos from the raw pool into
    numbered per-book folders `book_NNN` under the grouped root.

    The raw pool is the sequence of entries `RAW_DIR.glob("*")` lists, in
    listing order. The grouped root is the map from each sub-directory name
    of `GROUPED_DIR` to the files in it, each file name mapped to the entry
    it was moved from (a rename keeps the content and the modification
    time). Plain files lying directly in the grouped root are not
    modelled: `_next_book_index` skips them (`p.is_dir()`), but
    `_make_dest` raises FileExistsError on one that bears the name of the
    folder it creates. */
module GroupPhotos {
  import opened Wrappers
  import opened Text
  import opened Seqs
  import opened Ordering
  import opened Paths

  /** The extensions the batcher moves, compared in lower case. */
  const IMG_EXTS: set<string> := {".jpg", ".jpeg", ".png", ".webp", ".heic", ".heif"}

  /** `settings.PHOTOS_PER_BOOK` when the environment does not set it. */
  const PHOTOS_PER_BOOK_DEFAULT: int := 2

  predicate IsImage(e: Entry) { Lower(Suffix(e.name)) in IMG_EXTS }

  /** `imgs` after `imgs.sort(key=mtime)`: the pool's images, oldest first. */
  function Chronological(pool: seq<Entry>): seq<Entry>
  {
    ByMtime(Filter(pool, IsImage))
  }

  // ---------------------------------------------------------------------
  // Book folder names

  /** `re.match(r"book_\d{3,}$", name)`: "book_", then three or more digits,
      then the end of the name or a final newline (Python's `$` also
      matches just before a trailing "\n"). */
  predicate IsBookName(name: string): (r: bool)
    ensures r ==> |name| >= 8 && name[..5] == "book_"
  {
    |name| >= 5 && name[..5] == "book_" &&
    var rest := name[5..];
    (|rest| >= 3 && AllDigits(rest)) ||
    (|rest| >= 4 && rest[|rest| - 1] == '\n' && AllDigits(rest[..|rest| - 1]))
  }

  /** The digits after "book_" (`name.split("_")[1]`, whose trailing newline,
      if any, `int()` skips as white space). */
  function BookDigits(name: string): (r: string)
    requires IsBookName(name)
    ensures AllDigits(r)
  {
    var rest := name[5..];
    if AllDigits(rest) then rest else rest[..|rest| - 1]
  }

  /** `int(name.split("_")[1])`. */
  function BookIndex(name: string): nat
    requires IsBookName(name)
  {
    ValueOf(BookDigits(name))
  }

  /** `f"book_{index:03d}"`: "book_" and at least three digits. */
  function BookName(index: nat): (r: string)
    ensures |r| >= 8 && r[..5] == "book_" && AllDigits(r[5..])
  {
    "book_" + ZeroPad(index, 3)
  }

  /** Round trip: every name `_make_dest` creates matches the pattern
      `_next_book_index` looks for, and parses back to its index. */
  lemma BookNameRoundTrip(index: nat)
    ensures IsBookName(BookName(index)) && BookIndex(BookName(index)) == index
  {
    var n := BookName(index);
    assert n[..5] == "book_" && n[5..] == ZeroPad(index, 3);
    ZeroPadRoundTrip(index, 3);
  }

  lemma BookNameInjective(i: nat, j: nat)
    requires BookName(i) == BookName(j)
    ensures i == j
  {
    BookNameRoundTrip(i);
    BookNameRoundTrip(j);
  }

  /** Names `_next_book_index` ignores: a prefix in another case, fewer than
      three digits, and anything after the digits but a single newline. */
  lemma NotBookNames()
    ensures !IsBookName("Book_001")
    ensures !IsBookName("book_12")
    ensures !IsBookName("book_001x")
    ensures !IsBookName("book_001\n\n")
  {
    assert "Book_001"[..5] != "book_" by { assert "Book_001"[0] == 'B'; }
    assert "book_001x"[5..][3] == 'x';
    var t := "book_001\n\n";
    assert t[5..][|t[5..]| - 2] == '\n';
  }

  /** `$` also matches just before a final newline, so a name ending in one
      newline still counts, with the index of its digits. */
  lemma BookNameTrailingNewline()
    ensures IsBookName("book_001\n") && BookIndex("book_001\n") == 1
  {
    var u := "book_001\n";
    assert u[5..] == "001\n" && u[5..][..3] == "001";
    assert !AllDigits(u[5..]) by { assert u[5..][3] == '\n'; }
    assert BookDigits(u) == "001";
    assert Decimal(1) == "1" && Zeros(2) == "00";
    assert ZeroPad(1, 3) == "001";
    ZeroPadRoundTrip(1, 3);
  }


  // ---------------------------------------------------------------------
  // _next_book_index

  ghost function BookIndices(dirs: set<string>): set<nat>
  {
    set d | d in dirs && IsBookName(d) :: BookIndex(d)
  }

  ghost function MaxOf(s: set<nat>): (m: nat)
    requires s != {}
    ensures m in s && forall x :: x in s ==> x <= m
  {
    var x :| x in s;
    if forall y :: y in s ==> y <= x then x
    else
      var y :| y in s && y > x;
      assert y in s - {x};
      var r := MaxOf(s - {x});
      assert forall z :: z in s ==> z == x || z in s - {x};
      r
  }

  /** What `_next_book_index` returns: 1 with no book folder, else the
      largest index present plus one. */
  ghost function NextIndex(dirs: set<string>): (r: nat)
    ensures r >= 1
  {
    var ns := BookIndices(dirs);
    if ns == {} then 1 else MaxOf(ns) + 1
  }

  /** The allocated index is at least 1 and above every existing book
      folder's index; it is 1 when no sub-directory matches, and otherwise
      one more than the index of some existing book folder. */
  lemma NextIndexSpec(dirs: set<string>)
    ensures NextIndex(dirs) >= 1
    ensures forall d :: d in dirs && IsBookName(d) ==> BookIndex(d) < NextIndex(dirs)
    ensures (forall d :: d in dirs ==> !IsBookName(d)) ==> NextIndex(dirs) == 1
    ensures (exists d :: d in dirs && IsBookName(d)) ==>
      exists d :: d in dirs && IsBookName(d) && BookIndex(d) + 1 == NextIndex(dirs)
  {
    var ns := BookIndices(dirs);
    forall d | d in dirs && IsBookName(d) ensures BookIndex(d) in ns { }
    if ns != {} {
      var m := MaxOf(ns);
      var d :| d in dirs && IsBookName(d) && BookIndex(d) == m;
    }
  }

  /** A folder named with the allocated index, or with any index above it,
      does not exist yet. */
  lemma FreshBookName(dirs: set<string>, g: nat)
    ensures BookName(NextIndex(dirs) + g) !in dirs
  {
    NextIndexSpec(dirs);
    BookNameRoundTrip(NextIndex(dirs) + g);
  }

  /** `int(name.split("_")[1])` for the names the pattern accepts. */
  function ParseBook(name: string): (r: Option<nat>)
    ensures r.Some? <==> IsBookName(name)
    ensures r.Some? ==> r.value == BookIndex(name)
  {
    if IsBookName(name) then Some(BookIndex(name)) else None
  }

  /** `max(...)` over the values `parse` yields for the items it accepts;
      None when it accepts none of them. */
  method MaxParsed<T>(items: set<T>, parse: T -> Option<nat>) returns (m: Option<nat>)
    ensures m.None? <==> forall x :: x in items ==> parse(x).None?
    ensures m.Some? ==> exists x :: x in items && parse(x) == m
    ensures forall x :: x in items && parse(x).Some? ==> m.Some? && parse(x).value <= m.value
  {
    var rest := items;
    m := None;
    while rest != {}
      invariant rest <= items
      invariant m.None? <==> forall x :: x in items - rest ==> parse(x).None?
      invariant m.Some? ==> exists x :: x in items - rest && parse(x) == m
      invariant forall x :: x in items - rest && parse(x).Some? ==> m.Some? && parse(x).value <= m.value
      decreases |rest|
    {
      var x :| x in rest;
      var p := parse(x);
      if p.Some? && (m.None? || p.value > m.value) {
        m := p;
      }
      rest := rest - {x};
    }
  }

  /** The maximum over the parsed names decides `NextIndex`. */
  lemma NextIndexFromMax(dirs: set<string>, m: Option<nat>)
    requires m.None? <==> forall d :: d in dirs ==> ParseBook(d).None?
    requires m.Some? ==> exists d :: d in dirs && ParseBook(d) == m
    requires forall d :: d in dirs && ParseBook(d).Some? ==> m.Some? && ParseBook(d).value <= m.value
    ensures NextIndex(dirs) == if m.None? then 1 else m.value + 1
  {
    var ns := BookIndices(dirs);
    if m.None? {
      forall d | d in dirs ensures !IsBookName(d) {
        assert ParseBook(d).None?;
      }
      assert ns == {};
    } else {
      var d :| d in dirs && ParseBook(d) == m;
      assert m.value in ns;
      forall n | n in ns ensures n <= m.value {
        var e :| e in dirs && IsBookName(e) && n == BookIndex(e);
        assert ParseBook(e).Some?;
      }
      assert MaxOf(ns) <= m.value && m.value <= MaxOf(ns);
    }
  }

  /** `_next_book_index(base)`, on the names of `base`'s sub-directories. */
  method NextBookIndex(dirs: set<string>) returns (index: nat)
    ensures index == NextIndex(dirs)
  {
    var m := MaxParsed(dirs, ParseBook);
    NextIndexFromMax(dirs, m);
    if m.None? {
      index := 1;
    } else {
      index := m.value + 1;
    }
  }

  // ---------------------------------------------------------------------
  // Positions inside a book folder

  /** `f"{i:02d}{src.suffix.lower()}"`. */
  function PositionName(i: nat, src: Entry): string
  {
    ZeroPad(i, 2) + Lower(Suffix(src.name))
  }

  lemma ImageSuffixDot(e: Entry)
    requires IsImage(e)
    ensures |Lower(Suffix(e.name))| >= 2 && Lower(Suffix(e.name))[0] == '.'
  {
    var sfx := Suffix(e.name);
    assert Lower("") == "";
    SuffixShape(e.name);
    assert Lower(sfx)[0] == ToLowerChar(sfx[0]);
  }

  /** Two images get the same position name only at the same position: the
      zero-padded number is read back unambiguously. */
  lemma PositionNameInjective(i: nat, a: Entry, j: nat, b: Entry)
    requires IsImage(a) && IsImage(b)
    requires PositionName(i, a) == PositionName(j, b)
    ensures i == j
  {
    ImageSuffixDot(a);
    ImageSuffixDot(b);
    DigitRunSplit(ZeroPad(i, 2), Lower(Suffix(a.name)), ZeroPad(j, 2), Lower(Suffix(b.name)));
    ZeroPadInjective(i, j, 2);
  }

  /** The map a rename loop `for i, x in enumerate(s, start=1)` builds,
      element i going to key `key(i, x)`. */
  function Numbered<T>(s: seq<T>, key: (nat, T) -> string): map<string, T>
  {
    if s == [] then map[]
    else Numbered(s[..|s| - 1], key)[key(|s|, s[|s| - 1]) := s[|s| - 1]]
  }

  /** One more pass of the rename loop adds one key. */
  lemma NumberedSnoc<T>(s: seq<T>, key: (nat, T) -> string, i: nat)
    requires i < |s|
    ensures Numbered(s[..i + 1], key) == Numbered(s[..i], key)[key(i + 1, s[i]) := s[i]]
  {
    assert s[..i + 1][..i] == s[..i];
  }

  /** Every key of the map is the key of some element. */
  lemma {:induction false} NumberedOnly<T>(s: seq<T>, key: (nat, T) -> string)
    ensures forall p :: p in Numbered(s, key) ==> exists k :: 0 <= k < |s| && p == key(k + 1, s[k])
  {
    if s != [] {
      var n := |s|;
      var init := s[..n - 1];
      NumberedOnly(init, key);
      assert Numbered(s, key) == Numbered(init, key)[key(n, s[n - 1]) := s[n - 1]];
      forall p | p in Numbered(s, key) ensures exists k :: 0 <= k < n && p == key(k + 1, s[k]) {
        if p != key(n, s[n - 1]) {
          assert p in Numbered(init, key);
          var k :| 0 <= k < n - 1 && p == key(k + 1, init[k]);
          assert init[k] == s[k];
        }
      }
    }
  }

  /** With distinct keys, the last element's key is not among the others'. */
  lemma LastKeyNew<T>(s: seq<T>, key: (nat, T) -> string)
    requires s != []
    requires forall i, j :: 0 <= i < j < |s| ==> key(i + 1, s[i]) != key(j + 1, s[j])
    ensures key(|s|, s[|s| - 1]) !in Numbered(s[..|s| - 1], key)
  {
    var n := |s|;
    var init := s[..n - 1];
    NumberedOnly(init, key);
    forall k | 0 <= k < n - 1 ensures key(k + 1, init[k]) != key(n, s[n - 1]) {
      assert init[k] == s[k];
    }
  }

  /** With distinct keys, element i (from 1) sits under its key, and the
      map has one key per element. */
  lemma {:induction false} NumberedHas<T>(s: seq<T>, key: (nat, T) -> string)
    requires forall i, j :: 0 <= i < j < |s| ==> key(i + 1, s[i]) != key(j + 1, s[j])
    ensures var f := Numbered(s, key);
      && (forall k :: 0 <= k < |s| ==> key(k + 1, s[k]) in f && f[key(k + 1, s[k])] == s[k])
      && |f| == |s|
  {
    if s != [] {
      var n := |s|;
      var init := s[..n - 1];
      LastKeyNew(s, key);
      forall i, j | 0 <= i < j < n - 1 ensures key(i + 1, init[i]) != key(j + 1, init[j]) {
        assert init[i] == s[i] && init[j] == s[j];
      }
      NumberedHas(init, key);
      var f := Numbered(s, key);
      forall k | 0 <= k < n - 1 ensures key(k + 1, s[k]) in f && f[key(k + 1, s[k])] == s[k] {
        assert init[k] == s[k];
      }
    }
  }

  /** With distinct keys, element i (from 1) sits under its key, and
      nothing else is in the map. */
  lemma NumberedSpec<T>(s: seq<T>, key: (nat, T) -> string)
    requires forall i, j :: 0 <= i < j < |s| ==> key(i + 1, s[i]) != key(j + 1, s[j])
    ensures var f := Numbered(s, key);
      && (forall k :: 0 <= k < |s| ==> key(k + 1, s[k]) in f && f[key(k + 1, s[k])] == s[k])
      && (forall p :: p in f ==> exists k :: 0 <= k < |s| && p == key(k + 1, s[k]))
      && |f| == |s|
  {
    NumberedHas(s, key);
    NumberedOnly(s, key);
  }

  /** The files of a book folder after image number i (from 1) of `batch`
      was renamed to position i, for every i in turn. */
  function BatchFolder(batch: seq<Entry>): map<string, Entry>
  {
    Numbered(batch, PositionName)
  }

  /** A batch of images lands in its folder as positions 01, 02, ... in
      batch order, each file holding the image at that position, and
      nothing else is in the folder. */
  lemma BatchFolderSpec(batch: seq<Entry>)
    requires forall k :: 0 <= k < |batch| ==> IsImage(batch[k])
    ensures var f := BatchFolder(batch);
      && (forall k :: 0 <= k < |batch| ==> PositionName(k + 1, batch[k]) in f && f[PositionName(k + 1, batch[k])] == batch[k])
      && (forall p :: p in f ==> exists k :: 0 <= k < |batch| && p == PositionName(k + 1, batch[k]))
      && |f| == |batch|
  {
    forall i, j | 0 <= i < j < |batch| ensures PositionName(i + 1, batch[i]) != PositionName(j + 1, batch[j]) {
      if PositionName(i + 1, batch[i]) == PositionName(j + 1, batch[j]) {
        PositionNameInjective(i + 1, batch[i], j + 1, batch[j]);
      }
    }
    NumberedSpec(batch, PositionName);
  }

  // ---------------------------------------------------------------------
  // group_all's arithmetic

  /** `k * n`, written as repeated addition so that batch boundaries stay
      linear facts. */
  function Times(k: nat, n: nat): nat
  {
    if k == 0 then 0 else Times(k - 1, n) + n
  }

  lemma {:induction false} TimesIsProduct(k: nat, n: nat)
    ensures Times(k, n) == k * n
  {
    if k > 0 {
      TimesIsProduct(k - 1, n);
    }
  }

  lemma {:induction false} TimesMono(a: nat, b: nat, n: nat)
    requires a <= b
    ensures Times(a, n) <= Times(b, n)
    decreases b
  {
    if a < b {
      TimesMono(a, b - 1, n);
    }
  }

  /** Python's `a // b` (rounding towards minus infinity). */
  function FloorDiv(a: int, b: int): (q: int)
    requires b != 0
    ensures b > 0 ==> q == a / b
    ensures b < 0 && a > 0 ==> q < 0
  {
    if b > 0 then a / b else (-a) / (-b)
  }

  /** `p // n` is the number of whole batches of n in p. */
  lemma FloorDivBatches(p: nat, n: nat)
    requires n > 0
    ensures Times(p / n, n) <= p < Times(p / n + 1, n)
  {
    TimesIsProduct(p / n, n);
    TimesIsProduct(p / n + 1, n);
  }

  /** How many folders `group_all` fills for p images: `len(imgs) // need`,
      then `min(..., max_groups)`, and `range` of a negative count is empty
      (so is that of zero, when `need` is larger than p or negative). The
      empty pool returns before the division. */
  function GroupCount(p: nat, need: int, maxGroups: Option<int>): (k: nat)
    requires need != 0 || p == 0
    ensures k > 0 ==> need > 0 && Times(k, need) <= p
    ensures need > 0 && (maxGroups.None? || k < maxGroups.value) ==> p < Times(k + 1, need)
    ensures maxGroups.Some? ==> k <= Max(0, maxGroups.value)
  {
    if p == 0 then 0
    else
      var full := FloorDiv(p, need);
      if full == 0 then 0
      else
        var capped := if maxGroups.Some? then Min(full, maxGroups.value) else full;
        if capped < 0 then 0
        else
          FloorDivBatches(p, need);
          TimesMono(capped, full, need);
          capped
  }

  /** Without a cap, `group_all` takes the largest number of whole batches;
      the images left over are fewer than `need` (P mod N). */
  lemma GroupCountLeftover(p: nat, need: int)
    requires need > 0
    ensures var k := GroupCount(p, need, None);
      && Times(k, need) <= p
      && p - Times(k, need) < need
      && p - Times(k, need) == p % need
  {
    var k := GroupCount(p, need, None);
    WholeBatchesUnique(p, need, k);
  }

  /** The number of whole batches is unique: `p // n` and `p % n`. */
  lemma WholeBatchesUnique(p: nat, n: nat, k: nat)
    requires n > 0 && Times(k, n) <= p < Times(k + 1, n)
    ensures k == p / n && p - Times(k, n) == p % n
  {
    var q := p / n;
    TimesIsProduct(q, n);
    assert Times(q, n) <= p < Times(q, n) + n;
    if k < q {
      TimesMono(k + 1, q, n);
    } else if q < k {
      TimesMono(q + 1, k, n);
    }
  }

  /** Batch g: `imgs[g*need:(g+1)*need]`. */
  function Batch(imgs: seq<Entry>, need: nat, g: nat): seq<Entry>
    requires Times(g + 1, need) <= |imgs|
  {
    imgs[Times(g, need)..Times(g + 1, need)]
  }

  /** The names of folders start, start+1, ..., start+k-1. */
  function BookNames(start: nat, k: nat): (r: seq<string>)
    ensures |r| == k
  {
    if k == 0 then [] else BookNames(start, k - 1) + [BookName(start + k - 1)]
  }

  /** Name j of the list is that of folder start+j. */
  lemma {:induction false} BookNamesAt(start: nat, k: nat, j: nat)
    requires j < k
    ensures BookNames(start, k)[j] == BookName(start + j)
  {
    if j < k - 1 {
      BookNamesAt(start, k - 1, j);
    }
  }

  lemma BookNamesDistinct(start: nat, k: nat)
    ensures Distinct(BookNames(start, k))
  {
    var names := BookNames(start, k);
    forall i, j | 0 <= i < j < k ensures names[i] != names[j] {
      BookNamesAt(start, k, i);
      BookNamesAt(start, k, j);
      if names[i] == names[j] {
        BookNameInjective(start + i, start + j);
      }
    }
  }

  /** The folders `group_all` names after the allocated index are all new. */
  lemma BookNamesFresh(dirs: set<string>, k: nat)
    ensures forall j :: 0 <= j < k ==> BookNames(NextIndex(dirs), k)[j] !in dirs
  {
    forall j | 0 <= j < k ensures BookNames(NextIndex(dirs), k)[j] !in dirs {
      FreshBookName(dirs, j);
      BookNamesAt(NextIndex(dirs), k, j);
    }
  }

  /** A second update of a key overrides the first. */
  lemma UpdateTwice<K, V>(m: map<K, V>, k: K, v1: V, v2: V)
    ensures m[k := v1][k := v2] == m[k := v2]
  {
  }

  /** `m` after `ks[j] := vs[j]` for j = 0, 1, ... in turn. */
  function UpdateAll<K, V>(m: map<K, V>, ks: seq<K>, vs: seq<V>): map<K, V>
    requires |ks| == |vs|
  {
    if ks == [] then m
    else UpdateAll(m, ks[..|ks| - 1], vs[..|vs| - 1])[ks[|ks| - 1] := vs[|vs| - 1]]
  }

  lemma UpdateAllSnoc<K, V>(m: map<K, V>, ks: seq<K>, vs: seq<V>, k: K, v: V)
    requires |ks| == |vs|
    ensures UpdateAll(m, ks + [k], vs + [v]) == UpdateAll(m, ks, vs)[k := v]
  {
    assert (ks + [k])[..|ks|] == ks;
    assert (vs + [v])[..|vs|] == vs;
  }

  lemma {:induction false} UpdateAllKeys<K, V>(m: map<K, V>, ks: seq<K>, vs: seq<V>)
    requires |ks| == |vs|
    ensures UpdateAll(m, ks, vs).Keys == m.Keys + Elems(ks)
  {
    if ks != [] {
      var n := |ks|;
      UpdateAllKeys(m, ks[..n - 1], vs[..n - 1]);
      assert ks == ks[..n - 1] + [ks[n - 1]];
      assert Elems(ks) == Elems(ks[..n - 1]) + {ks[n - 1]};
    }
  }

  /** Updating only keys that are new keeps every old key's value. */
  lemma {:induction false} UpdateAllKeeps<K, V>(m: map<K, V>, ks: seq<K>, vs: seq<V>)
    requires |ks| == |vs|
    requires forall j :: 0 <= j < |ks| ==> ks[j] !in m
    ensures forall d :: d in m ==> d in UpdateAll(m, ks, vs) && UpdateAll(m, ks, vs)[d] == m[d]
  {
    if ks != [] {
      var n := |ks|;
      var ks0 := ks[..n - 1];
      forall j | 0 <= j < n - 1 ensures ks0[j] !in m {
        assert ks0[j] == ks[j];
      }
      UpdateAllKeeps(m, ks0, vs[..n - 1]);
      assert ks[n - 1] !in m;
    }
  }

  /** With distinct keys, key j ends up holding value j. */
  lemma {:induction false} UpdateAllAt<K, V>(m: map<K, V>, ks: seq<K>, vs: seq<V>, j: nat)
    requires |ks| == |vs| && Distinct(ks) && j < |ks|
    ensures ks[j] in UpdateAll(m, ks, vs) && UpdateAll(m, ks, vs)[ks[j]] == vs[j]
  {
    var n := |ks|;
    if j < n - 1 {
      var ks0 := ks[..n - 1];
      forall a, b | 0 <= a < b < n - 1 ensures ks0[a] != ks0[b] {
        assert ks0[a] == ks[a] && ks0[b] == ks[b];
      }
      UpdateAllAt(m, ks0, vs[..n - 1], j);
      assert ks0[j] == ks[j] && ks[j] != ks[n - 1];
    }
  }

  /** `f` of each of batches 0..k-1, in order. */
  function PerBatch<V>(imgs: seq<Entry>, need: nat, k: nat, f: seq<Entry> -> V): (r: seq<V>)
    requires Times(k, need) <= |imgs|
    ensures |r| == k
  {
    if k == 0 then []
    else
      TimesMono(k - 1, k, need);
      PerBatch(imgs, need, k - 1, f) + [f(Batch(imgs, need, k - 1))]
  }

  lemma {:induction false} PerBatchAt<V>(imgs: seq<Entry>, need: nat, k: nat, f: seq<Entry> -> V, j: nat)
    requires Times(k, need) <= |imgs| && j < k
    ensures Times(j + 1, need) <= |imgs|
    ensures PerBatch(imgs, need, k, f)[j] == f(Batch(imgs, need, j))
  {
    TimesMono(j + 1, k, need);
    TimesMono(k - 1, k, need);
    if j < k - 1 {
      PerBatchAt(imgs, need, k - 1, f, j);
    }
  }

  /** The folders batches 0..k-1 fill. */
  function Folders(imgs: seq<Entry>, need: nat, k: nat): (r: seq<map<string, Entry>>)
    requires Times(k, need) <= |imgs|
    ensures |r| == k
  {
    PerBatch(imgs, need, k, BatchFolder)
  }

  /** The grouped root after batches 0..k-1 went to folders start..start+k-1. */
  function AddBatches(g0: map<string, map<string, Entry>>, imgs: seq<Entry>, need: nat, start: nat, k: nat)
    : map<string, map<string, Entry>>
    requires Times(k, need) <= |imgs|
  {
    UpdateAll(g0, BookNames(start, k), Folders(imgs, need, k))
  }

  /** Folders start..start+k-1 do not exist in `g0`. */
  predicate FreshNames(g0: map<string, map<string, Entry>>, start: nat, k: nat)
  {
    forall j :: 0 <= j < k ==> BookNames(start, k)[j] !in g0
  }

  /** The folders numbered from the allocated index on are all new. */
  lemma NextIndexFresh(g0: map<string, map<string, Entry>>, k: nat)
    ensures FreshNames(g0, NextIndex(g0.Keys), k)
  {
    BookNamesFresh(g0.Keys, k);
  }

  /** After `group_all` the folders are the old ones and the new ones. */
  lemma AddBatchesKeys(g0: map<string, map<string, Entry>>, imgs: seq<Entry>, need: nat, start: nat, k: nat)
    requires Times(k, need) <= |imgs|
    ensures AddBatches(g0, imgs, need, start, k).Keys == g0.Keys + Elems(BookNames(start, k))
  {
    UpdateAllKeys(g0, BookNames(start, k), Folders(imgs, need, k));
  }

  /** The folders that existed before `group_all` are unchanged. */
  lemma AddBatchesKeeps(g0: map<string, map<string, Entry>>, imgs: seq<Entry>, need: nat, start: nat, k: nat)
    requires Times(k, need) <= |imgs| && FreshNames(g0, start, k)
    ensures forall d :: d in g0 ==>
      d in AddBatches(g0, imgs, need, start, k) && AddBatches(g0, imgs, need, start, k)[d] == g0[d]
  {
    UpdateAllKeeps(g0, BookNames(start, k), Folders(imgs, need, k));
  }

  /** Folder start+j holds exactly batch j. */
  lemma AddBatchesAt(g0: map<string, map<string, Entry>>, imgs: seq<Entry>, need: nat, start: nat, k: nat, j: nat)
    requires Times(k, need) <= |imgs| && j < k
    ensures Times(j + 1, need) <= |imgs|
    ensures BookName(start + j) in AddBatches(g0, imgs, need, start, k)
    ensures AddBatches(g0, imgs, need, start, k)[BookName(start + j)] == BatchFolder(Batch(imgs, need, j))
  {
    var names := BookNames(start, k);
    BookNamesDistinct(start, k);
    BookNamesAt(start, k, j);
    PerBatchAt(imgs, need, k, BatchFolder, j);
    UpdateAllAt(g0, names, Folders(imgs, need, k), j);
  }

  /** Zero passes leave the grouped root as it was. */
  lemma AddBatchesNone(g0: map<string, map<string, Entry>>, imgs: seq<Entry>, need: nat, start: nat)
    ensures AddBatches(g0, imgs, need, start, 0) == g0
  {
  }

  /** One more pass of `group_all`'s loop: batch g goes to folder
      start+g, which is new when it was not in `g0`. */
  lemma AddBatchesNext(g0: map<string, map<string, Entry>>, imgs: seq<Entry>, need: nat, start: nat, g: nat)
    requires Times(g + 1, need) <= |imgs|
    ensures Times(g, need) <= |imgs|
    ensures AddBatches(g0, imgs, need, start, g + 1)
      == AddBatches(g0, imgs, need, start, g)[BookName(start + g) := BatchFolder(Batch(imgs, need, g))]
    ensures BookName(start + g) !in g0 ==> BookName(start + g) !in AddBatches(g0, imgs, need, start, g)
  {
    TimesMono(g, g + 1, need);
    var names := BookNames(start, g);
    var folders := Folders(imgs, need, g);
    UpdateAllSnoc(g0, names, folders, BookName(start + g), BatchFolder(Batch(imgs, need, g)));
    UpdateAllKeys(g0, names, folders);
    assert BookName(start + g) !in Elems(names) by {
      if BookName(start + g) in names {
        var j :| 0 <= j < g && names[j] == BookName(start + g);
        BookNamesAt(start, g, j);
        BookNameInjective(start + j, start + g);
      }
    }
  }

  // ---------------------------------------------------------------------
  // Indices across calls

  /** A book folder no other book folder exceeds decides the next index. */
  lemma NextIndexOfTop(dirs: set<string>, top: string)
    requires top in dirs && IsBookName(top)
    requires forall d :: d in dirs && IsBookName(d) ==> BookIndex(d) <= BookIndex(top)
    ensures NextIndex(dirs) == BookIndex(top) + 1
  {
    NextIndexSpec(dirs);
  }

  /** Every book folder among the names start..start+k-1 has an index below
      start+k. */
  lemma BookNamesBelow(start: nat, k: nat, d: string)
    requires d in BookNames(start, k) && IsBookName(d)
    ensures BookIndex(d) < start + k
  {
    var j :| 0 <= j < k && BookNames(start, k)[j] == d;
    BookNamesAt(start, k, j);
    BookNameRoundTrip(start + j);
  }

  /** Adding the folders numbered from the next index to next+k-1 keeps
      every book folder's index below next+k. */
  lemma AddedNamesBelow(dirs: set<string>, k: nat)
    ensures forall d :: d in dirs + Elems(BookNames(NextIndex(dirs), k)) && IsBookName(d) ==>
      BookIndex(d) < NextIndex(dirs) + k
  {
    var n := NextIndex(dirs);
    NextIndexSpec(dirs);
    forall d | d in dirs + Elems(BookNames(n, k)) && IsBookName(d) ensures BookIndex(d) < n + k {
      if d !in dirs {
        BookNamesBelow(n, k, d);
      }
    }
  }

  /** The last of the names start..start+k-1 is a book folder with index
      start+k-1. */
  lemma LastOfBookNames(start: nat, k: nat)
    requires k > 0
    ensures BookName(start + k - 1) in BookNames(start, k)
    ensures IsBookName(BookName(start + k - 1)) && BookIndex(BookName(start + k - 1)) == start + k - 1
  {
    BookNamesAt(start, k, k - 1);
    BookNameRoundTrip(start + k - 1);
  }

  /** Adding the k > 0 folders numbered from the next index on moves the
      next index on by exactly k: no index is skipped or handed out twice. */
  lemma NextIndexAfterNames(dirs: set<string>, k: nat)
    requires k > 0
    ensures NextIndex(dirs + Elems(BookNames(NextIndex(dirs), k))) == NextIndex(dirs) + k
  {
    var n := NextIndex(dirs);
    LastOfBookNames(n, k);
    AddedNamesBelow(dirs, k);
    NextIndexOfTop(dirs + Elems(BookNames(n, k)), BookName(n + k - 1));
  }

  /** After `group_all` created k > 0 folders, the next call allocates the
      index right after the last of them. */
  lemma NextAfterBatches(g0: map<string, map<string, Entry>>, imgs: seq<Entry>, need: nat, k: nat)
    requires Times(k, need) <= |imgs| && k > 0
    ensures NextIndex(AddBatches(g0, imgs, need, NextIndex(g0.Keys), k).Keys) == NextIndex(g0.Keys) + k
  {
    AddBatchesKeys(g0, imgs, need, NextIndex(g0.Keys), k);
    NextIndexAfterNames(g0.Keys, k);
  }

  /** After `group_last_set` created a folder, the next call allocates the
      index right after it. */
  lemma NextAfterLastSet(g0: map<string, map<string, Entry>>, batch: seq<Entry>)
    ensures NextIndex(g0[BookName(NextIndex(g0.Keys)) := BatchFolder(batch)].Keys) == NextIndex(g0.Keys) + 1
  {
    var n := NextIndex(g0.Keys);
    assert BookNames(n, 1) == [BookName(n)];
    assert g0[BookName(n) := BatchFolder(batch)].Keys == g0.Keys + Elems(BookNames(n, 1));
    NextIndexAfterNames(g0.Keys, 1);
  }

  /** The folders book_001 to book_i give the next index i + 1. */
  lemma NextIndexOfFirst(i: nat)
    ensures NextIndex(Elems(BookNames(1, i))) == i + 1
  {
    var none: set<string> := {};
    assert BookIndices(none) == {};
    if i > 0 {
      assert none + Elems(BookNames(1, i)) == Elems(BookNames(1, i));
      NextIndexAfterNames(none, i);
    } else {
      assert Elems(BookNames(1, i)) == none;
    }
  }

  /** The next index depends only on the folders present: with book_001 to
      book_i in the root, deleting book_i makes the next call hand out i
      again. */
  lemma IndexReusedAfterDelete(i: nat)
    requires i >= 1
    ensures NextIndex(Elems(BookNames(1, i))) == i + 1
    ensures NextIndex(Elems(BookNames(1, i)) - {BookName(i)}) == i
  {
    NextIndexOfFirst(i);
    var rest := BookNames(1, i - 1);
    assert BookNames(1, i) == rest + [BookName(i)];
    assert BookName(i) !in rest by {
      if BookName(i) in rest {
        BookNamesBelow(1, i - 1, BookName(i));
        BookNameRoundTrip(i);
      }
    }
    assert Elems(BookNames(1, i)) - {BookName(i)} == Elems(rest);
    NextIndexOfFirst(i - 1);
  }

  /** Taking out images a..b-1 after images 0..a-1 is taking out 0..b-1. */
  lemma WithoutPrefixes(s: seq<Entry>, imgs: seq<Entry>, a: nat, b: nat)
    requires a <= b <= |imgs|
    ensures Without(Without(s, Elems(imgs[..a])), Elems(imgs[a..b])) == Without(s, Elems(imgs[..b]))
  {
    WithoutWithout(s, Elems(imgs[..a]), Elems(imgs[a..b]));
    ElemsSplit(imgs, a, b);
  }

  lemma ElemsSplit(s: seq<Entry>, a: nat, b: nat)
    requires a <= b <= |s|
    ensures Elems(s[..a]) + Elems(s[a..b]) == Elems(s[..b])
  {
    forall x | x in Elems(s[..b]) ensures x in Elems(s[..a]) + Elems(s[a..b]) {
      var i :| 0 <= i < b && s[i] == x;
      if i < a { assert s[..a][i] == x; } else { assert s[a..b][i - a] == x; }
    }
  }

  /** Every entry of `Chronological(pool)` is an image of the pool. */
  lemma ChronologicalMember(pool: seq<Entry>, x: Entry)
    requires x in Chronological(pool)
    ensures x in pool && IsImage(x)
  {
    assert x in multiset(Filter(pool, IsImage));
    FilterMember(pool, IsImage, x);
  }

  lemma ChronologicalLength(pool: seq<Entry>)
    ensures |Chronological(pool)| == |Filter(pool, IsImage)|
  {
    assert |multiset(Chronological(pool))| == |multiset(Filter(pool, IsImage))|;
  }

  // ---------------------------------------------------------------------
  // The two folders and the operations that move photos between them

  class PhotoStore {
    /** The entries of RAW_DIR, in listing order. */
    var raw: seq<Entry>
    /** The sub-directories of GROUPED_DIR, each with its files. */
    var grouped: map<string, map<string, Entry>>

    constructor (raw0: seq<Entry>, grouped0: map<string, map<string, Entry>>)
      ensures raw == raw0 && grouped == grouped0
    {
      raw := raw0;
      grouped := grouped0;
    }

    /** `_make_dest(base, index)`: `mkdir(exist_ok=True)` of `book_{index:03d}`,
        for a grouped root whose entries are all directories. */
    method MakeDest(index: nat) returns (dest: string)
      modifies this
      ensures dest == BookName(index)
      ensures raw == old(raw)
      ensures grouped == old(grouped)[dest := if dest in old(grouped) then old(grouped)[dest] else map[]]
    {
      dest := BookName(index);
      if dest !in grouped {
        grouped := grouped[dest := map[]];
      }
    }

    /** `src.rename(dest / f"{pos:02d}{src.suffix.lower()}")`. */
    method MoveInto(src: Entry, dest: string, pos: nat)
      requires dest in grouped
      modifies this
      ensures raw == Without(old(raw), {src})
      ensures grouped == old(grouped)[dest := old(grouped)[dest][PositionName(pos, src) := src]]
    {
      raw := Without(raw, {src});
      grouped := grouped[dest := grouped[dest][PositionName(pos, src) := src]];
    }

    /** Pass i of the rename loop of `MoveBatch`: image i of `batch` goes to
        position i + 1 of `dest`, starting from the state after passes
        0..i-1 on `raw0` and `grouped0`. */
    method MoveNext(batch: seq<Entry>, dest: string, i: nat, ghost raw0: seq<Entry>,
                    ghost grouped0: map<string, map<string, Entry>>)
      requires i < |batch|
      requires raw == Without(raw0, Elems(batch[..i]))
      requires grouped == grouped0[dest := BatchFolder(batch[..i])]
      modifies this
      ensures raw == Without(raw0, Elems(batch[..i + 1]))
      ensures grouped == grouped0[dest := BatchFolder(batch[..i + 1])]
    {
      MoveInto(batch[i], dest, i + 1);
      WithoutPrefixStep(raw0, batch, i);
      NumberedSnoc(batch, PositionName, i);
      UpdateTwice(grouped0, dest, BatchFolder(batch[..i]), BatchFolder(batch[..i + 1]));
    }

    /** The rename loop `for i, src in enumerate(batch, start=1)` into an
        empty folder `dest`. */
    method MoveBatch(batch: seq<Entry>, dest: string)
      requires dest in grouped && grouped[dest] == map[]
      modifies this
      ensures raw == Without(old(raw), Elems(batch))
      ensures grouped == old(grouped)[dest := BatchFolder(batch)]
    {
      ghost var raw0, grouped0 := raw, grouped;
      WithoutNone(raw, {});
      assert Elems(batch[..0]) == {};
      assert grouped == grouped0[dest := BatchFolder(batch[..0])];
      var i := 0;
      while i < |batch|
        invariant 0 <= i <= |batch|
        invariant raw == Without(raw0, Elems(batch[..i]))
        invariant grouped == grouped0[dest := BatchFolder(batch[..i])]
      {
        MoveNext(batch, dest, i, raw0, grouped0);
        i := i + 1;
      }
      assert batch[..i] == batch;
    }

    /** The second half of `group_last_set`: a new folder for `batch`,
        named with the next free index, filled with it in order. */
    method GroupBatch(batch: seq<Entry>) returns (dest: string)
      modifies this
      ensures dest == BookName(NextIndex(old(grouped).Keys)) && dest !in old(grouped)
      ensures grouped == old(grouped)[dest := BatchFolder(batch)]
      ensures raw == Without(old(raw), Elems(batch))
    {
      var startIdx := NextBookIndex(grouped.Keys);
      FreshBookName(grouped.Keys, 0);
      dest := MakeDest(startIdx);
      MoveBatch(batch, dest);
      UpdateTwice(old(grouped), dest, map[], BatchFolder(batch));
    }

    /** `group_last_set()`, with `need` = `settings.PHOTOS_PER_BOOK`. With no
        image, or fewer than `need`, nothing changes and the result is None.
        Otherwise the slice `imgs[-need:]` (for need >= 1 the `need` newest
        images) goes, in chronological order, into one new folder named
        with the next free index, and leaves the pool; nothing else moves. */
    method GroupLastSet(need: int) returns (dest: Option<string>)
      modifies this
      ensures var imgs := Chronological(old(raw));
        if |imgs| == 0 || |imgs| < need then
          dest == None && raw == old(raw) && grouped == old(grouped)
        else
          var batch := LastN(imgs, need);
          && dest == Some(BookName(NextIndex(old(grouped).Keys)))
          && dest.value !in old(grouped)
          && grouped == old(grouped)[dest.value := BatchFolder(batch)]
          && raw == Without(old(raw), Elems(batch))
    {
      var imgs := Chronological(raw);
      if |imgs| == 0 {
        return None;
      }
      if |imgs| < need {
        return None;
      }
      var d := GroupBatch(LastN(imgs, need));
      dest := Some(d);
    }

    /** One pass of `group_all`'s outer loop: batch g into folder start+g,
        which does not exist yet. */
    method FillFolder(imgs: seq<Entry>, need: nat, start: nat, g: nat) returns (dest: string)
      requires Times(g + 1, need) <= |imgs|
      requires BookName(start + g) !in grouped
      modifies this
      ensures dest == BookName(start + g)
      ensures grouped == old(grouped)[dest := BatchFolder(Batch(imgs, need, g))]
      ensures raw == Without(old(raw), Elems(Batch(imgs, need, g)))
    {
      var batch := imgs[Times(g, need)..Times(g + 1, need)];
      dest := MakeDest(start + g);
      MoveBatch(batch, dest);
      UpdateTwice(old(grouped), dest, map[], BatchFolder(batch));
    }

    /** Pass g of the loop of `group_all` over batches 0..full-1 into the
        new folders start..start+full-1, starting from the state after passes
        0..g-1 on `raw0` and `grouped0`. */
    method FillNext(imgs: seq<Entry>, need: nat, start: nat, g: nat, full: nat, ghost raw0: seq<Entry>,
                    ghost grouped0: map<string, map<string, Entry>>) returns (dest: string)
      requires g < full && Times(full, need) <= |imgs| && Times(g, need) <= |imgs|
      requires FreshNames(grouped0, start, full)
      requires grouped == AddBatches(grouped0, imgs, need, start, g)
      requires raw == Without(raw0, Elems(imgs[..Times(g, need)]))
      modifies this
      ensures Times(g + 1, need) <= |imgs|
      ensures grouped == AddBatches(grouped0, imgs, need, start, g + 1)
      ensures raw == Without(raw0, Elems(imgs[..Times(g + 1, need)]))
      ensures dest == BookName(start + g)
    {
      TimesMono(g, g + 1, need);
      TimesMono(g + 1, full, need);
      BookNamesAt(start, full, g);
      AddBatchesNext(grouped0, imgs, need, start, g);
      dest := FillFolder(imgs, need, start, g);
      WithoutPrefixes(raw0, imgs, Times(g, need), Times(g + 1, need));
    }

    /** The loop `for g in range(full_groups)` of `group_all`: batches
        0..full-1 of `imgs` into the new folders start..start+full-1. */
    method FillFolders(imgs: seq<Entry>, need: nat, start: nat, full: nat) returns (created: seq<string>)
      requires Times(full, need) <= |imgs| && FreshNames(grouped, start, full)
      modifies this
      ensures created == BookNames(start, full)
      ensures grouped == AddBatches(old(grouped), imgs, need, start, full)
      ensures raw == Without(old(raw), Elems(imgs[..Times(full, need)]))
    {
      ghost var raw0, grouped0 := raw, grouped;
      assert Elems(imgs[..Times(0, need)]) == {};
      WithoutNone(raw, {});
      AddBatchesNone(grouped, imgs, need, start);
      created := [];
      var g := 0;
      while g < full
        invariant 0 <= g <= full && Times(g, need) <= |imgs|
        invariant created == BookNames(start, g)
        invariant grouped == AddBatches(grouped0, imgs, need, start, g)
        invariant raw == Without(raw0, Elems(imgs[..Times(g, need)]))
      {
        var dest := FillNext(imgs, need, start, g, full, raw0, grouped0);
        created := created + [dest];
        g := g + 1;
      }
    }

    /** `group_all(max_groups)`, with `need` = `settings.PHOTOS_PER_BOOK`
        (a zero `need` divides by zero unless there is no image). The pool's
        images, oldest first, are cut into `GroupCount` consecutive batches
        of `need`; batch g goes into a new folder numbered start+g, where
        start is the next free index, and leaves the pool. */
    method GroupAll(need: int, maxGroups: Option<int>) returns (created: seq<string>)
      requires need != 0 || |Filter(raw, IsImage)| == 0
      modifies this
      ensures var imgs := Chronological(old(raw));
              var k := GroupCount(|imgs|, need, maxGroups);
              var start := NextIndex(old(grouped).Keys);
        && created == BookNames(start, k)
        && (k == 0 ==> grouped == old(grouped) && raw == old(raw))
        && (k > 0 ==>
              && need > 0
              && grouped == AddBatches(old(grouped), imgs, need, start, k)
              && raw == Without(old(raw), Elems(imgs[..Times(k, need)])))
    {
      var imgs := Chronological(raw);
      ChronologicalLength(raw);
      if |imgs| == 0 {
        return [];
      }
      var full := FloorDiv(|imgs|, need);
      if full == 0 {
        return [];
      }
      if maxGroups.Some? {
        full := Min(full, maxGroups.value);
      }
      var startIdx := NextBookIndex(grouped.Keys);
      ghost var k := GroupCount(|imgs|, need, maxGroups);
      assert k == Max(0, full);
      if full <= 0 {
        // `range` of a count below one runs no pass.
        return [];
      }
      NextIndexFresh(grouped, k);
      created := FillFolders(imgs, need, startIdx, full);
    }
  }

  // ---------------------------------------------------------------------
  // Counting what stays in the pool

  /** The chronological images of a pool with unique names are
      duplicate-free. */
  lemma ChronologicalDistinct(pool: seq<Entry>)
    requires UniqueNames(pool)
    ensures Distinct(pool) && Distinct(Chronological(pool))
  {
    FilterDistinct(pool, IsImage);
    DistinctPermutation(Filter(pool, IsImage), Chronological(pool));
  }

  /** Taking the chronological images a..b-1 (`cut`) out of the pool
      leaves P-(b-a) images and |pool|-(b-a) entries, and every other entry
      stays. */
  lemma RemoveSliceCount(pool: seq<Entry>, a: nat, b: nat, cut: seq<Entry>)
    requires UniqueNames(pool) && a <= b <= |Chronological(pool)|
    requires cut == Chronological(pool)[a..b]
    ensures var rest := Without(pool, Elems(cut));
      && |Filter(rest, IsImage)| == |Chronological(pool)| - (b - a)
      && |rest| == |pool| - (b - a)
      && (forall x :: x in pool && x !in cut ==> x in rest)
  {
    var imgs := Chronological(pool);
    ChronologicalDistinct(pool);
    ChronologicalLength(pool);
    DistinctSlice(imgs, a, b);
    DistinctCard(cut);
    forall x | x in Elems(cut) ensures x in pool && IsImage(x) {
      ChronologicalMember(pool, x);
    }
    RemoveSelected(pool, IsImage, Elems(cut));
  }

  /** After `group_last_set` moved a batch of `need`, P - need images stay
      in the pool, and so does every entry not in the batch. */
  lemma LastSetRemainder(pool: seq<Entry>, need: int)
    requires UniqueNames(pool) && 1 <= need <= |Chronological(pool)|
    ensures var imgs := Chronological(pool);
            var rest := Without(pool, Elems(LastN(imgs, need)));
      && |Filter(rest, IsImage)| == |imgs| - need
      && |rest| == |pool| - need
      && (forall x :: x in pool && x !in LastN(imgs, need) ==> x in rest)
  {
    var imgs := Chronological(pool);
    LastNSlice(imgs, need);
    RemoveSliceCount(pool, |imgs| - need, |imgs|, LastN(imgs, need));
  }

  /** Without a cap, `group_all` leaves `P mod N` images in the pool, so a
      second call with no new photos creates no folder. */
  lemma GroupAllThenNothing(pool: seq<Entry>, need: int, maxGroups: Option<int>)
    requires UniqueNames(pool) && need > 0
    ensures var imgs := Chronological(pool);
            var k := GroupCount(|imgs|, need, None);
            var rest := Without(pool, Elems(imgs[..Times(k, need)]));
      && |Chronological(rest)| == |imgs| % need
      && GroupCount(|Chronological(rest)|, need, maxGroups) == 0
  {
    var imgs := Chronological(pool);
    var k := GroupCount(|imgs|, need, None);
    GroupCountLeftover(|imgs|, need);
    assert imgs[..Times(k, need)] == imgs[0..Times(k, need)];
    RemoveSliceCount(pool, 0, Times(k, need), imgs[..Times(k, need)]);
    var rest := Without(pool, Elems(imgs[..Times(k, need)]));
    ChronologicalLength(rest);
    assert Times(1, need) == need;
  }

  /** The suffixes, lower-cased, of the three names of the scenario below. */
  lemma ExampleSuffixes()
    ensures Lower(Suffix("a.jpg")) == ".jpg" && Lower(Suffix("b.jpg")) == ".jpg"
    ensures Lower(Suffix("c.heic")) == ".heic"
  {
    RFindAt("a.jpg", '.', 1);
    RFindAt("b.jpg", '.', 1);
    RFindAt("c.heic", '.', 1);
    assert Suffix("a.jpg") == ".jpg" && Suffix("b.jpg") == ".jpg" && Suffix("c.heic") == ".heic";
    assert Lower(".jpg") == ".jpg";
    assert Lower(".heic") == ".heic";
  }

  /** The three files of the scenario below are all images. */
  lemma ExampleImages()
    ensures IsImage(Entry("a.jpg", 1)) && IsImage(Entry("b.jpg", 2)) && IsImage(Entry("c.heic", 3))
  {
    ExampleSuffixes();
  }

  /** Positions 1 to 9 are written as a zero and the digit. */
  lemma PositionNameDigit(i: nat, src: Entry)
    requires 1 <= i < 10
    ensures PositionName(i, src) == ['0', DigitChar(i)] + Lower(Suffix(src.name))
  {
    ZeroPadDigit(i, 2);
    assert Zeros(1) == "0";
  }

  /** In the scenario below, b.jpg becomes position 01 and c.heic 02. */
  lemma ExamplePositionJpg(b: Entry)
    requires b == Entry("b.jpg", 2)
    ensures PositionName(1, b) == "01.jpg"
  {
    RFindAt(b.name, '.', 1);
    assert Lower(Suffix(b.name)) == ".jpg";
    PositionNameDigit(1, b);
    assert DigitChar(1) == '1';
    assert ['0', '1'] + ".jpg" == "01.jpg";
  }

  lemma ExamplePositionHeic(c: Entry)
    requires c == Entry("c.heic", 3)
    ensures PositionName(2, c) == "02.heic"
  {
    RFindAt(c.name, '.', 1);
    assert Lower(Suffix(c.name)) == ".heic";
    PositionNameDigit(2, c);
    assert DigitChar(2) == '2';
    assert ['0', '2'] + ".heic" == "02.heic";
  }

  /** A pool made only of images, already oldest first, is its own
      chronological list. */
  lemma ChronologicalOfSorted(pool: seq<Entry>)
    requires forall i :: 0 <= i < |pool| ==> IsImage(pool[i])
    requires Sorted(pool, OlderThan)
    ensures Chronological(pool) == pool
  {
    FilterAll(pool, IsImage);
    SortOfSorted(pool, OlderThan);
  }

  /** The scenario: a.jpg (mtime 1), b.jpg (2), c.heic (3) and N at its
      default of 2. All
      three are images, already in chronological order, so the batch is
      b.jpg then c.heic (stored as 01.jpg and 02.heic, by
      `ExamplePositionJpg` and `ExamplePositionHeic`). */
  lemma LastSetExample(a: Entry, b: Entry, c: Entry)
    requires a == Entry("a.jpg", 1) && b == Entry("b.jpg", 2) && c == Entry("c.heic", 3)
    ensures Chronological([a, b, c]) == [a, b, c]
    ensures LastN(Chronological([a, b, c]), PHOTOS_PER_BOOK_DEFAULT) == [b, c]
  {
    ExampleImages();
    AllOfThree(a, b, c, IsImage);
    SortedThree(a, b, c, OlderThan);
    ChronologicalOfSorted([a, b, c]);
    assert [a, b, c][1..] == [b, c];
  }

  lemma AllOfThree<T>(a: T, b: T, c: T, p: T -> bool)
    requires p(a) && p(b) && p(c)
    ensures forall i :: 0 <= i < |[a, b, c]| ==> p([a, b, c][i])
  {
  }

  lemma SortedThree<T>(a: T, b: T, c: T, lt: (T, T) -> bool)
    requires !lt(b, a) && !lt(c, a) && !lt(c, b)
    ensures Sorted([a, b, c], lt)
  {
  }

  /** The first folder `_make_dest` creates is `book_001`. */
  lemma FirstBookName()
    ensures BookName(1) == "book_001"
  {
    ZeroPadDigit(1, 3);
    assert Zeros(2) == "00";
  }

  /** In the scenario, the batch b.jpg, c.heic is filed as 01.jpg and
      02.heic and the folder holds nothing else. */
  lemma ExampleFolder(b: Entry, c: Entry)
    requires b == Entry("b.jpg", 2) && c == Entry("c.heic", 3)
    ensures BatchFolder([b, c]) == map["01.jpg" := b, "02.heic" := c]
  {
    ExamplePositionJpg(b);
    ExamplePositionHeic(c);
    assert [b, c][..1] == [b];
    assert [b][..0] == [];
    assert Numbered([b], PositionName) == map["01.jpg" := b];
    assert Numbered([b, c], PositionName) == map["01.jpg" := b][PositionName(2, c) := c];
  }

  /** Moving b and c out of the pool a, b, c leaves a. */
  lemma ExampleRemainder(a: Entry, b: Entry, c: Entry)
    requires a == Entry("a.jpg", 1) && b == Entry("b.jpg", 2) && c == Entry("c.heic", 3)
    ensures Elems([b, c]) == {b, c}
    ensures Without([a, b, c], {b, c}) == [a]
  {
    assert [a, b, c][1..] == [b, c];
    assert [b, c][1..] == [c];
    assert [c][1..] == [];
    assert Without([c], {b, c}) == [];
    assert Without([b, c], {b, c}) == [];
  }

  /** The whole scenario run through `group_last_set`: with a.jpg (mtime 1),
      b.jpg (2) and c.heic (3) in the raw pool, an empty grouped root and N
      at its default of 2, the call creates `book_001` holding 01.jpg (from
      b.jpg) and 02.heic (from c.heic) and leaves only a.jpg in the pool. */
  method LastSetScenario() returns (dest: Option<string>, raw: seq<Entry>, grouped: map<string, map<string, Entry>>)
    ensures dest == Some("book_001")
    ensures raw == [Entry("a.jpg", 1)]
    ensures grouped == map["book_001" := map["01.jpg" := Entry("b.jpg", 2), "02.heic" := Entry("c.heic", 3)]]
  {
    var a, b, c := Entry("a.jpg", 1), Entry("b.jpg", 2), Entry("c.heic", 3);
    var store := new PhotoStore([a, b, c], map[]);
    LastSetExample(a, b, c);
    NextIndexSpec({});
    FirstBookName();
    ExampleFolder(b, c);
    ExampleRemainder(a, b, c);
    assert store.grouped.Keys == {};
    ghost var name := BookName(NextIndex(store.grouped.Keys));
    assert name == "book_001";
    dest := store.GroupLastSet(PHOTOS_PER_BOOK_DEFAULT);
    assert dest == Some(name);
    raw, grouped := store.raw, store.grouped;
  }
}
