/** Directory entries and the parts of `pathlib` the core relies on:
    `Path.suffix`, `Path.stem`, `Path.with_suffix`, ordering by
    modification time (`p.stat().st_mtime`) and the ordering of paths. */
module Paths {
  import opened Text
  import opened Ordering

  /** One entry of a directory listing: its name and its modification
      time. Within one directory the names are unique. */
  datatype Entry = Entry(name: string, mtime: int)

  predicate UniqueNames(s: seq<Entry>)
  {
    forall i, j :: 0 <= i < j < |s| ==> s[i].name != s[j].name
  }

  /** `str.rfind(c)`: the last position holding `c`, or -1. */
  function RFind(s: string, c: char): (r: int)
    ensures -1 <= r < |s|
    ensures r >= 0 ==> s[r] == c
    ensures forall i :: r < i < |s| ==> s[i] != c
    decreases |s|
  {
    if s == [] then -1
    else if s[|s| - 1] == c then |s| - 1
    else RFind(s[..|s| - 1], c)
  }

  /** The last position of `c` is the one with no `c` after it. */
  lemma RFindAt(s: string, c: char, i: nat)
    requires i < |s| && s[i] == c
    requires forall j :: i < j < |s| ==> s[j] != c
    ensures RFind(s, c) == i
  {
  }

  /** `PurePath.suffix`: from the last dot on, unless that dot is the first
      or the last character of the name. */
  function Suffix(name: string): string
  {
    var i := RFind(name, '.');
    if 0 < i < |name| - 1 then name[i..] else ""
  }

  /** `PurePath.stem`: the name without its suffix. */
  function Stem(name: string): string
  {
    var i := RFind(name, '.');
    if 0 < i < |name| - 1 then name[..i] else name
  }

  /** `PurePath.with_suffix(sfx)` on a non-empty name. */
  function WithSuffix(name: string, sfx: string): string
  {
    Stem(name) + sfx
  }

  /** The stem and the suffix put back together give the name; a non-empty
      suffix is a dot, at least one more character and no further dot, and
      then the stem is not empty. */
  lemma SuffixShape(name: string)
    ensures Stem(name) + Suffix(name) == name
    ensures Suffix(name) != "" ==>
      |Suffix(name)| >= 2 && Suffix(name)[0] == '.' && |Stem(name)| >= 1 &&
      forall k :: 1 <= k < |Suffix(name)| ==> Suffix(name)[k] != '.'
  {
  }

  /** `with_suffix(sfx)` of a name that has a suffix yields a name whose suffix
      is `sfx` and whose stem is unchanged, for a suffix made of a dot and at
      least one character that is not a dot (such as ".jpg"). */
  lemma WithSuffixRoundTrip(name: string, sfx: string)
    requires Suffix(name) != ""
    requires |sfx| >= 2 && sfx[0] == '.' && forall k :: 1 <= k < |sfx| ==> sfx[k] != '.'
    ensures Suffix(WithSuffix(name, sfx)) == sfx
    ensures Stem(WithSuffix(name, sfx)) == Stem(name)
  {
    SuffixShape(name);
    var stem := Stem(name);
    var n := stem + sfx;
    assert n[|stem|] == '.';
    assert forall k :: |stem| < k < |n| ==> n[k] == sfx[k - |stem|];
    assert RFind(n, '.') == |stem|;
    assert n[|stem|..] == sfx;
    assert n[..|stem|] == stem;
  }

  /** `a.stat().st_mtime < b.stat().st_mtime`, the key `sort` uses. */
  predicate OlderThan(a: Entry, b: Entry) { a.mtime < b.mtime }

  /** `s.sort(key=lambda p: p.stat().st_mtime)`: oldest first, stable. */
  function ByMtime(s: seq<Entry>): (r: seq<Entry>)
    ensures |r| == |s|
    ensures multiset(r) == multiset(s)
  {
    Sort(s, OlderThan)
  }

  /** Oldest first: no entry is newer than one after it. */
  predicate Ascending(s: seq<Entry>)
  {
    forall i, j :: 0 <= i < j < |s| ==> s[i].mtime <= s[j].mtime
  }

  /** No entry of `older` is newer than an entry of `newer`. */
  predicate NoNewer(older: seq<Entry>, newer: seq<Entry>)
  {
    forall i, j :: 0 <= i < |older| && 0 <= j < |newer| ==> older[i].mtime <= newer[j].mtime
  }

  /** The result of `ByMtime` runs from the oldest to the newest entry. */
  lemma ByMtimeAscending(s: seq<Entry>)
    ensures Ascending(ByMtime(s))
  {
    SortSorted(s, OlderThan);
  }

  /** The last n entries of a sequence ordered by modification time are the
      n newest: ordered among themselves, none older than an entry before
      them, and those entries followed by them are the whole sequence. */
  lemma LatestSuffix(s: seq<Entry>, n: nat)
    requires n <= |s| && Ascending(s)
    ensures Ascending(s[|s| - n..]) && NoNewer(s[..|s| - n], s[|s| - n..])
    ensures s[..|s| - n] + s[|s| - n..] == s
  {
    var m := |s| - n;
    var r := s[m..];
    forall i, j | 0 <= i < j < n ensures r[i].mtime <= r[j].mtime {
      assert r[i] == s[m + i] && r[j] == s[m + j];
    }
    forall i, j | 0 <= i < m && 0 <= j < n ensures s[..m][i].mtime <= r[j].mtime {
      assert r[j] == s[m + j] && s[..m][i] == s[i];
    }
  }

  /** Comparison of two names of one directory: the paths compare as their
      names do. */
  predicate NameLt(a: Entry, b: Entry) { StrLt(a.name, b.name) }

  lemma NameLtStrictOrder()
    ensures StrictOrder(NameLt)
  {
    StrLtStrictOrder();
  }

  /** A path relative to a walked folder: the directories leading to the
      entry and the entry's own name. */
  datatype Path = Path(dirs: seq<string>, name: string)
  {
    function Parts(): seq<string> { dirs + [name] }
  }

  /** `PurePath.__lt__`: the lists of components compare lexicographically,
      each component as a string. */
  predicate PathLt(a: Path, b: Path)
  {
    LexLt(a.Parts(), b.Parts(), StrLt)
  }

  lemma PathLtStrictOrder()
    ensures StrictOrder(PathLt)
  {
    StrLtStrictOrder();
    forall a: Path ensures !PathLt(a, a) { LexIrreflexive(a.Parts(), StrLt); }
    forall a: Path, b: Path, c: Path | PathLt(a, b) && PathLt(b, c) ensures PathLt(a, c) {
      LexTransitive(a.Parts(), b.Parts(), c.Parts(), StrLt);
    }
  }
}
