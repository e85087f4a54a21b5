/**
 * The directory scanner of the `Folder` class (src/Folder.php): `files`, `folders`, the
 * recursive walk `_items` they share, and the checks `Folder::move` makes before renaming.
 *
 * A directory is a tree of entries as `readdir` lists them, in whatever order it lists
 * them; the regular expressions are predicates on names.
 */
module Folders {
  import opened Wrappers
  import opened Sorting
  import Paths
  import Files

  /** A directory entry. `readable` says whether `opendir` succeeds on a directory. */
  datatype Node =
    | File(name: string)
    | Dir(name: string, readable: bool, children: seq<Node>)

  /** The `$recurse` argument: only the boolean `true` makes the scan descend. */
  datatype Recurse = Flag(on: bool) | Depth(levels: int)

  /** The arguments `_items` passes unchanged down the walk. */
  datatype ScanConfig = ScanConfig(
    filter: string -> bool,
    recurse: Recurse,
    full: bool,
    exclude: seq<string>,
    excludePattern: Option<string -> bool>,
    findFiles: bool)

  /**
   * The exclusion patterns joined by `|` into one regular expression, which matches a name
   * when one of them does; with no pattern there is nothing to match.
   */
  function ExcludePattern(patterns: seq<string -> bool>): Option<string -> bool>
  {
    if patterns == [] then None
    else Some(name => exists i | 0 <= i < |patterns| :: patterns[i](name))
  }

  /** The names the walk skips, together with everything beneath them. */
  predicate Excluded(name: string, cfg: ScanConfig) {
    || name == "."
    || name == ".."
    || name in cfg.exclude
    || (cfg.excludePattern.Some? && cfg.excludePattern.value(name))
  }

  /**
   * What `files` and `folders` make of their exclusion arguments: a name is skipped when it is
   * "." or "..", is in the exclusion list, or matches one of the exclusion patterns; with no
   * pattern, no name is skipped for matching.
   */
  lemma ExcludedIff(name: string, filter: string -> bool, recurse: Recurse, full: bool,
                    exclude: seq<string>, patterns: seq<string -> bool>, findFiles: bool)
    ensures var cfg := ScanConfig(filter, recurse, full, exclude, ExcludePattern(patterns), findFiles);
      Excluded(name, cfg) <==>
        || name == "." || name == ".."
        || name in exclude
        || exists i | 0 <= i < |patterns| :: patterns[i](name)
  {
  }

  /** An entry is kept when it is not excluded, is of the kind asked for and passes the filter. */
  predicate Selected(e: Node, cfg: ScanConfig) {
    !Excluded(e.name, cfg) && (e.Dir? != cfg.findFiles) && cfg.filter(e.name)
  }

  predicate Descends(cfg: ScanConfig) {
    cfg.recurse == Flag(true)
  }

  function FullPath(parent: string, ds: char, name: string): string {
    parent + [ds] + name
  }

  /** A kept entry together with the path of the directory it was found in. */
  datatype Hit = Hit(parent: string, entry: Node)

  /** The entries the walk keeps under the directory `dir` found at `path`, in visiting order. */
  function Matches(path: string, dir: Node, ds: char, cfg: ScanConfig): seq<Hit>
    decreases dir, 1, 0
  {
    if dir.Dir? && dir.readable then MatchesUpTo(path, dir, |dir.children|, ds, cfg) else []
  }

  /** What the walk has kept after the first `k` entries of `dir`. */
  function MatchesUpTo(path: string, dir: Node, k: nat, ds: char, cfg: ScanConfig): seq<Hit>
    requires dir.Dir? && k <= |dir.children|
    decreases dir, 0, k
  {
    if k == 0 then []
    else MatchesUpTo(path, dir, k - 1, ds, cfg) + EntryMatches(path, dir.children[k - 1], ds, cfg)
  }

  /** What one entry contributes: itself when selected, then, for a directory, what lies beneath it. */
  function EntryMatches(path: string, e: Node, ds: char, cfg: ScanConfig): seq<Hit>
    decreases e, 2, 0
  {
    if Excluded(e.name, cfg) then []
    else
      (if e.Dir? != cfg.findFiles && cfg.filter(e.name) then [Hit(path, e)] else [])
      + (if e.Dir? && Descends(cfg) then Matches(FullPath(path, ds, e.name), e, ds, cfg) else [])
  }

  /**
   * `h` is an entry the walk visits in the directory `dir` found at `path`: `dir` can be
   * opened and `h` is reached through one of its entries.
   */
  predicate Reaches(path: string, dir: Node, ds: char, cfg: ScanConfig, h: Hit)
    decreases dir, 1
  {
    dir.Dir? && dir.readable && exists j | 0 <= j < |dir.children| :: ReachesVia(path, dir.children[j], ds, cfg, h)
  }

  /**
   * `h` is reached through the entry `e` of the directory at `path`: it is `e` itself, or the
   * walk recurses, `e` is a directory that is not excluded, and `h` is visited inside it.
   */
  predicate ReachesVia(path: string, e: Node, ds: char, cfg: ScanConfig, h: Hit)
    decreases e, 2
  {
    || h == Hit(path, e)
    || (e.Dir? && Descends(cfg) && !Excluded(e.name, cfg) && Reaches(FullPath(path, ds, e.name), e, ds, cfg, h))
  }

  /** How a kept entry is reported: its full path or its bare name. */
  function Render(h: Hit, ds: char, full: bool): string {
    if full then FullPath(h.parent, ds, h.entry.name) else h.entry.name
  }

  function RenderAll(hits: seq<Hit>, ds: char, full: bool): seq<string>
  {
    seq(|hits|, i requires 0 <= i < |hits| => Render(hits[i], ds, full))
  }

  /** What `_items` returns for the directory `dir` found at `path`. */
  function Items(path: string, dir: Node, ds: char, cfg: ScanConfig): seq<string> {
    RenderAll(Matches(path, dir, ds, cfg), ds, cfg.full)
  }

  /**
   * `Folder::_items`: read the entries of `dir` one by one, append the kept ones and, when
   * `$recurse` is `true`, what the recursive call returns for each sub-directory. A directory
   * that cannot be opened gives an empty list.
   */
  method ScanDir(path: string, dir: Node, ds: char, cfg: ScanConfig) returns (arr: seq<string>)
    ensures arr == Items(path, dir, ds, cfg)
    decreases dir
  {
    arr := [];
    if !(dir.Dir? && dir.readable) {
      return;
    }
    var i := 0;
    while i < |dir.children|
      invariant 0 <= i <= |dir.children|
      invariant arr == RenderAll(MatchesUpTo(path, dir, i, ds, cfg), ds, cfg.full)
    {
      var file := dir.children[i];
      var found: seq<string> := [];
      if file.name != "." && file.name != ".." && file.name !in cfg.exclude
        && (cfg.excludePattern.None? || !cfg.excludePattern.value(file.name))
      {
        var fullpath := FullPath(path, ds, file.name);
        var isDir := file.Dir?;
        if isDir != cfg.findFiles && cfg.filter(file.name) {
          if cfg.full {
            found := [fullpath];
          } else {
            found := [file.name];
          }
        }
        // The recursive call passes `true`, which is what `cfg.recurse` is here.
        if isDir && cfg.recurse == Flag(true) {
          var sub := ScanDir(fullpath, file, ds, cfg);
          found := found + sub;
        }
      }
      RenderEntry(path, file, ds, cfg);
      assert found == RenderAll(EntryMatches(path, file, ds, cfg), ds, cfg.full);
      EntryStep(path, dir, i, ds, cfg);
      arr := arr + found;
      i := i + 1;
    }
  }

  /** One more entry read: what is kept so far grows by what that entry contributes. */
  lemma EntryStep(path: string, dir: Node, i: nat, ds: char, cfg: ScanConfig)
    requires dir.Dir? && i < |dir.children|
    ensures RenderAll(MatchesUpTo(path, dir, i + 1, ds, cfg), ds, cfg.full)
         == RenderAll(MatchesUpTo(path, dir, i, ds, cfg), ds, cfg.full)
            + RenderAll(EntryMatches(path, dir.children[i], ds, cfg), ds, cfg.full)
  {
    RenderAllAppend(MatchesUpTo(path, dir, i, ds, cfg), EntryMatches(path, dir.children[i], ds, cfg), ds, cfg.full);
  }

  lemma RenderAllAppend(a: seq<Hit>, b: seq<Hit>, ds: char, full: bool)
    ensures RenderAll(a + b, ds, full) == RenderAll(a, ds, full) + RenderAll(b, ds, full)
  {
  }

  lemma RenderEntry(path: string, e: Node, ds: char, cfg: ScanConfig)
    ensures !Excluded(e.name, cfg) ==>
      RenderAll(EntryMatches(path, e, ds, cfg), ds, cfg.full)
      == (if e.Dir? != cfg.findFiles && cfg.filter(e.name)
          then [if cfg.full then FullPath(path, ds, e.name) else e.name] else [])
         + (if e.Dir? && Descends(cfg) then Items(FullPath(path, ds, e.name), e, ds, cfg) else [])
  {
    if !Excluded(e.name, cfg) {
      var own := if e.Dir? != cfg.findFiles && cfg.filter(e.name) then [Hit(path, e)] else [];
      var below := if e.Dir? && Descends(cfg) then Matches(FullPath(path, ds, e.name), e, ds, cfg) else [];
      RenderAllAppend(own, below, ds, cfg.full);
    }
  }

  /**
   * Exactly the selected entries the walk visits are kept: an entry is kept if and only if it
   * passes the selection and is found in the tree, directly or, when recursing, through
   * sub-directories that are not excluded and can be opened.
   */
  lemma {:induction false} MatchesReach(path: string, dir: Node, ds: char, cfg: ScanConfig, h: Hit)
    ensures h in Matches(path, dir, ds, cfg) <==> Selected(h.entry, cfg) && Reaches(path, dir, ds, cfg, h)
    decreases dir, 1, 0
  {
    if dir.Dir? && dir.readable {
      MatchesUpToReach(path, dir, |dir.children|, ds, cfg, h);
    }
  }

  lemma {:induction false} MatchesUpToReach(path: string, dir: Node, k: nat, ds: char, cfg: ScanConfig, h: Hit)
    requires dir.Dir? && k <= |dir.children|
    ensures h in MatchesUpTo(path, dir, k, ds, cfg)
        <==> Selected(h.entry, cfg) && exists j | 0 <= j < k :: ReachesVia(path, dir.children[j], ds, cfg, h)
    decreases dir, 0, k
  {
    if k > 0 {
      MatchesUpToReach(path, dir, k - 1, ds, cfg, h);
      EntryReach(path, dir.children[k - 1], ds, cfg, h);
    }
  }

  lemma {:induction false} EntryReach(path: string, e: Node, ds: char, cfg: ScanConfig, h: Hit)
    ensures h in EntryMatches(path, e, ds, cfg) <==> Selected(h.entry, cfg) && ReachesVia(path, e, ds, cfg, h)
    decreases e, 2, 0
  {
    if !Excluded(e.name, cfg) && e.Dir? && Descends(cfg) {
      MatchesReach(FullPath(path, ds, e.name), e, ds, cfg, h);
    }
  }

  /** Every kept entry is selected and lies at or below the scanned path. */
  lemma {:induction false} MatchesUpToSelected(path: string, dir: Node, k: nat, ds: char, cfg: ScanConfig)
    requires dir.Dir? && k <= |dir.children|
    ensures forall h | h in MatchesUpTo(path, dir, k, ds, cfg) :: Selected(h.entry, cfg) && path <= h.parent
    decreases dir, k
  {
    if k > 0 {
      MatchesUpToSelected(path, dir, k - 1, ds, cfg);
      var e := dir.children[k - 1];
      var sub := FullPath(path, ds, e.name);
      assert MatchesUpTo(path, dir, k, ds, cfg) == MatchesUpTo(path, dir, k - 1, ds, cfg) + EntryMatches(path, e, ds, cfg);
      if !Excluded(e.name, cfg) && e.Dir? && Descends(cfg) && e.readable {
        MatchesUpToSelected(sub, e, |e.children|, ds, cfg);
        forall h | h in Matches(sub, e, ds, cfg)
          ensures path <= h.parent
        {
          assert sub <= h.parent;
          assert h.parent[..|path|] == sub[..|path|] == path;
        }
      }
    }
  }

  /**
   * What `_items` returns: one item per kept entry, each entry selected (not "." or "..",
   * not an excluded name, not matching the exclusion pattern, of the kind asked for, passing
   * the filter) and found in the scanned tree, reported by full path or by bare name.
   */
  lemma ItemsAreSelectedEntries(path: string, dir: Node, ds: char, cfg: ScanConfig)
    ensures var hits, items := Matches(path, dir, ds, cfg), Items(path, dir, ds, cfg);
      && |items| == |hits|
      && forall i | 0 <= i < |hits| ::
           && Selected(hits[i].entry, cfg)
           && Reaches(path, dir, ds, cfg, hits[i])
           && path <= hits[i].parent
           && items[i] == (if cfg.full then hits[i].parent + [ds] + hits[i].entry.name else hits[i].entry.name)
  {
    if dir.Dir? && dir.readable {
      MatchesUpToSelected(path, dir, |dir.children|, ds, cfg);
    }
    var hits := Matches(path, dir, ds, cfg);
    forall i | 0 <= i < |hits|
      ensures Reaches(path, dir, ds, cfg, hits[i])
    {
      MatchesReach(path, dir, ds, cfg, hits[i]);
    }
    assert forall i | 0 <= i < |hits| :: hits[i] in hits;
  }

  /** Without recursion, exactly the selected entries of the directory itself are kept. */
  lemma {:induction false} MatchesUpToFlat(path: string, dir: Node, k: nat, ds: char, cfg: ScanConfig)
    requires dir.Dir? && k <= |dir.children| && !Descends(cfg)
    ensures forall h ::
      (h in MatchesUpTo(path, dir, k, ds, cfg)) <==> (h.parent == path && h.entry in dir.children[..k] && Selected(h.entry, cfg))
  {
    if k > 0 {
      MatchesUpToFlat(path, dir, k - 1, ds, cfg);
      assert dir.children[..k] == dir.children[..k - 1] + [dir.children[k - 1]];
    }
  }

  /** With `$recurse` anything but `true`, the result lists exactly the selected entries of the directory itself. */
  lemma NoRecursionDirectChildren(path: string, dir: Node, ds: char, cfg: ScanConfig)
    requires !Descends(cfg)
    ensures forall h ::
      (h in Matches(path, dir, ds, cfg)) <==> (dir.Dir? && dir.readable && h.parent == path && h.entry in dir.children && Selected(h.entry, cfg))
  {
    if dir.Dir? && dir.readable {
      MatchesUpToFlat(path, dir, |dir.children|, ds, cfg);
      assert dir.children[..|dir.children|] == dir.children;
    }
  }

  /** Two configurations that differ only in a `$recurse` other than `true` keep the same entries. */
  lemma {:induction false} MatchesUpToSameWithoutRecursion(path: string, dir: Node, k: nat, ds: char, cfg: ScanConfig, cfg': ScanConfig)
    requires dir.Dir? && k <= |dir.children|
    requires !Descends(cfg) && cfg' == cfg.(recurse := cfg'.recurse) && !Descends(cfg')
    ensures MatchesUpTo(path, dir, k, ds, cfg) == MatchesUpTo(path, dir, k, ds, cfg')
  {
    if k > 0 {
      MatchesUpToSameWithoutRecursion(path, dir, k - 1, ds, cfg, cfg');
      var e := dir.children[k - 1];
      assert Excluded(e.name, cfg) == Excluded(e.name, cfg');
    }
  }

  /** An integer depth does not bound the recursion, it switches it off: the scan behaves as with `false`. */
  lemma DepthMeansNoRecursion(path: string, dir: Node, ds: char, cfg: ScanConfig, levels: int)
    ensures Items(path, dir, ds, cfg.(recurse := Depth(levels))) == Items(path, dir, ds, cfg.(recurse := Flag(false)))
  {
    if dir.Dir? && dir.readable {
      MatchesUpToSameWithoutRecursion(path, dir, |dir.children|, ds, cfg.(recurse := Depth(levels)), cfg.(recurse := Flag(false)));
    }
  }

  /** Entries read earlier are never dropped: the list kept after `j` entries starts the list kept after `n`. */
  lemma {:induction false} MatchesUpToGrows(path: string, dir: Node, j: nat, n: nat, ds: char, cfg: ScanConfig)
    requires dir.Dir? && j <= n <= |dir.children|
    ensures MatchesUpTo(path, dir, j, ds, cfg) <= MatchesUpTo(path, dir, n, ds, cfg)
    decreases n
  {
    if j < n {
      MatchesUpToGrows(path, dir, j, n - 1, ds, cfg);
    }
  }

  /**
   * Nothing is lost: a selected entry of a readable directory is kept, and with recursion every
   * entry kept beneath a non-excluded sub-directory is kept too.
   */
  lemma EntryContributionKept(path: string, dir: Node, k: nat, ds: char, cfg: ScanConfig)
    requires dir.Dir? && dir.readable && k < |dir.children|
    ensures var e := dir.children[k];
      && (Selected(e, cfg) ==> Hit(path, e) in Matches(path, dir, ds, cfg))
      && (!Excluded(e.name, cfg) && e.Dir? && Descends(cfg) ==>
            forall h | h in Matches(FullPath(path, ds, e.name), e, ds, cfg) :: h in Matches(path, dir, ds, cfg))
  {
    MatchesUpToGrows(path, dir, k + 1, |dir.children|, ds, cfg);
    var prefix := MatchesUpTo(path, dir, k + 1, ds, cfg);
    assert forall h | h in prefix :: h in Matches(path, dir, ds, cfg);
  }

  /** Replacing an entry by one that reports the same items leaves the whole result unchanged. */
  lemma {:induction false} ReplaceEntry(path: string, dir: Node, k: nat, other: Node, j: nat, ds: char, cfg: ScanConfig)
    requires dir.Dir? && k < |dir.children| && j <= |dir.children|
    requires RenderAll(EntryMatches(path, other, ds, cfg), ds, cfg.full)
          == RenderAll(EntryMatches(path, dir.children[k], ds, cfg), ds, cfg.full)
    ensures RenderAll(MatchesUpTo(path, dir, j, ds, cfg), ds, cfg.full)
         == RenderAll(MatchesUpTo(path, dir.(children := dir.children[k := other]), j, ds, cfg), ds, cfg.full)
  {
    if j > 0 {
      var dir' := dir.(children := dir.children[k := other]);
      ReplaceEntry(path, dir, k, other, j - 1, ds, cfg);
      EntryStep(path, dir, j - 1, ds, cfg);
      EntryStep(path, dir', j - 1, ds, cfg);
    }
  }

  /** An excluded directory is never descended into: whatever it holds, the result is the same. */
  lemma ExcludedSubtreeIgnored(path: string, dir: Node, k: nat, other: Node, ds: char, cfg: ScanConfig)
    requires dir.Dir? && k < |dir.children| && Excluded(dir.children[k].name, cfg)
    requires other.name == dir.children[k].name
    ensures Items(path, dir, ds, cfg) == Items(path, dir.(children := dir.children[k := other]), ds, cfg)
  {
    ReplaceEntry(path, dir, k, other, |dir.children|, ds, cfg);
  }

  /**
   * A sub-directory that cannot be opened contributes at most itself; its contents do not matter
   * and the rest of the scan goes on.
   */
  lemma UnreadableSubdirDegrades(path: string, dir: Node, k: nat, contents: seq<Node>, ds: char, cfg: ScanConfig)
    requires dir.Dir? && k < |dir.children|
    requires dir.children[k].Dir? && !dir.children[k].readable
    ensures var e := dir.children[k];
      && EntryMatches(path, e, ds, cfg) == (if Selected(e, cfg) then [Hit(path, e)] else [])
      && Items(path, dir, ds, cfg) == Items(path, dir.(children := dir.children[k := e.(children := contents)]), ds, cfg)
  {
    var e := dir.children[k];
    var other := e.(children := contents);
    assert RenderAll(EntryMatches(path, other, ds, cfg), ds, cfg.full) == RenderAll(EntryMatches(path, e, ds, cfg), ds, cfg.full);
    ReplaceEntry(path, dir, k, other, |dir.children|, ds, cfg);
  }

  /** `is_dir`: the path names a directory, readable or not. */
  predicate IsDirectory(n: Option<Node>) {
    n.Some? && n.value.Dir?
  }

  /** The names `files` and `folders` exclude when not told otherwise. */
  const DefaultExclude: seq<string> := [".svn", "CVS", ".DS_Store", "__MACOSX", "Thumbs.db"]

  /** The default filter `.`: some character other than a newline. */
  predicate DefaultFilter(name: string) {
    exists i | 0 <= i < |name| :: name[i] != '\n'
  }

  /** The default exclusion pattern `^\..*`: a name that starts with a dot. */
  predicate Hidden(name: string) {
    |name| > 0 && name[0] == '.'
  }

  /** The default exclusion pattern `.*~` of `files`: a name containing a tilde. */
  predicate HasTilde(name: string) {
    '~' in name
  }

  /**
   * `Folder::files`: fails with FOLDER_PATH_IS_NOT_A_FOLDER unless the cleaned path is a
   * directory; otherwise returns what `_items` finds for files, ordered by the natural
   * comparison (`natsort`) or the regular one (`asort`), indexed from 0.
   */
  method ListFiles(path: string, ds: char, root: string, resolve: string -> Option<Node>,
                   filter: string -> bool, recurse: Recurse, full: bool, exclude: seq<string>,
                   excludePatterns: seq<string -> bool>, naturalSort: bool,
                   natural: (string, string) -> bool, regular: (string, string) -> bool)
    returns (r: Result<seq<string>, string>)
    ensures var p := Paths.Clean(path, ds, root);
      && (r.Failure? <==> !IsDirectory(resolve(p)))
      && (r.Failure? ==> r.error == "FOLDER_PATH_IS_NOT_A_FOLDER")
      && (r.Success? ==>
            var cfg := ScanConfig(filter, recurse, full, exclude, ExcludePattern(excludePatterns), true);
            var le := if naturalSort then natural else regular;
            && multiset(r.value) == multiset(Items(p, resolve(p).value, ds, cfg))
            && (TotalPreorder(le) ==> SortedBy(r.value, le)))
  {
    var p := Paths.Clean(path, ds, root);
    var node := resolve(p);
    if !(node.Some? && node.value.Dir?) {
      return Failure("FOLDER_PATH_IS_NOT_A_FOLDER");
    }
    var excludePattern := ExcludePattern(excludePatterns);
    var arr := ScanDir(p, node.value, ds, ScanConfig(filter, recurse, full, exclude, excludePattern, true));
    var le := if naturalSort then natural else regular;
    if TotalPreorder(le) {
      SortBySorted(arr, le);
    }
    r := Success(SortBy(arr, le));
  }

  /**
   * `Folder::folders`: as `files`, for directories, always ordered by the regular comparison (`asort`).
   */
  method ListFolders(path: string, ds: char, root: string, resolve: string -> Option<Node>,
                     filter: string -> bool, recurse: Recurse, full: bool, exclude: seq<string>,
                     excludePatterns: seq<string -> bool>, regular: (string, string) -> bool)
    returns (r: Result<seq<string>, string>)
    ensures var p := Paths.Clean(path, ds, root);
      && (r.Failure? <==> !IsDirectory(resolve(p)))
      && (r.Failure? ==> r.error == "FOLDER_PATH_IS_NOT_A_FOLDER")
      && (r.Success? ==>
            var cfg := ScanConfig(filter, recurse, full, exclude, ExcludePattern(excludePatterns), false);
            && multiset(r.value) == multiset(Items(p, resolve(p).value, ds, cfg))
            && (TotalPreorder(regular) ==> SortedBy(r.value, regular)))
  {
    var p := Paths.Clean(path, ds, root);
    var node := resolve(p);
    if !(node.Some? && node.value.Dir?) {
      return Failure("FOLDER_PATH_IS_NOT_A_FOLDER");
    }
    var excludePattern := ExcludePattern(excludePatterns);
    var arr := ScanDir(p, node.value, ds, ScanConfig(filter, recurse, full, exclude, excludePattern, false));
    if TotalPreorder(regular) {
      SortBySorted(arr, regular);
    }
    r := Success(SortBy(arr, regular));
  }

  /**
   * With the default arguments of `files`, no name starting with a dot, containing a tilde,
   * or in the default exclusion list is ever reported.
   */
  lemma DefaultFilesSkipHidden(path: string, dir: Node, ds: char, recurse: Recurse)
    ensures var cfg := ScanConfig(DefaultFilter, recurse, false, DefaultExclude, ExcludePattern([Hidden, HasTilde]), true);
      forall x | x in Items(path, dir, ds, cfg) :: !Hidden(x) && !HasTilde(x) && x !in DefaultExclude
  {
    var cfg := ScanConfig(DefaultFilter, recurse, false, DefaultExclude, ExcludePattern([Hidden, HasTilde]), true);
    ItemsAreSelectedEntries(path, dir, ds, cfg);
    var items := Items(path, dir, ds, cfg);
    forall x | x in items
      ensures !Hidden(x) && !HasTilde(x) && x !in DefaultExclude
    {
      var i :| 0 <= i < |items| && items[i] == x;
      var pat := ExcludePattern([Hidden, HasTilde]).value;
      assert !pat(x);
      assert [Hidden, HasTilde][0] == Hidden && [Hidden, HasTilde][1] == HasTilde;
    }
  }

  /**
   * The checks of `Folder::move`: a missing source fails with FAILED_FINDING_SOURCE_FOLDER and an
   * existing destination with FOLDER_ALREADY_EXISTS, whatever `$overwrite` says.
   */
  function MoveFolder(src: string, dest: string, overwrite: bool, existing: set<string>, ds: char, root: string): (r: Result<Files.Rename, string>)
    ensures var s := Paths.Clean(src, ds, root);
      r == Failure("FAILED_FINDING_SOURCE_FOLDER") <==> !Files.Exists(s, existing, ds, root)
    ensures var s, d := Paths.Clean(src, ds, root), Paths.Clean(dest, ds, root);
      r == Failure("FOLDER_ALREADY_EXISTS") <==> Files.Exists(s, existing, ds, root) && Files.Exists(d, existing, ds, root)
    ensures var s, d := Paths.Clean(src, ds, root), Paths.Clean(dest, ds, root);
      r.Success? <==> Files.Exists(s, existing, ds, root) && !Files.Exists(d, existing, ds, root)
    ensures r.Success? ==> r.value == Files.Rename(Paths.Clean(src, ds, root), Paths.Clean(dest, ds, root), overwrite)
  {
    var s := Paths.Clean(src, ds, root);
    var d := Paths.Clean(dest, ds, root);
    if !Files.Exists(s, existing, ds, root) then Failure("FAILED_FINDING_SOURCE_FOLDER")
    else if Files.Exists(d, existing, ds, root) then Failure("FOLDER_ALREADY_EXISTS")
    else Success(Files.Rename(s, d, overwrite))
  }

  /** Unlike a file move, a folder move fails in the same cases whether or not overwriting is asked for. */
  lemma MoveFolderIgnoresOverwrite(src: string, dest: string, existing: set<string>, ds: char, root: string)
    ensures MoveFolder(src, dest, true, existing, ds, root).Failure? == MoveFolder(src, dest, false, existing, ds, root).Failure?
    ensures MoveFolder(src, dest, true, existing, ds, root).Failure? ==>
      MoveFolder(src, dest, true, existing, ds, root) == MoveFolder(src, dest, false, existing, ds, root)
  {
  }
}
