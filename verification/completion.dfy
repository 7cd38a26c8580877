/**
 * The completion helpers of `src/editor/completion.rs`: splitting a typed path
 * into directory and name prefix, listing matching directory entries or
 * executables on $PATH, and the longest common prefix of the matches.
 * The filesystem is a parameter: a map from directory path to its entries.
 */
module Completion {
  import opened Wrappers
  import opened Text
  import opened Ordering

  /**
   * A directory entry as `read_dir` reports it: its name, whether its path is a
   * directory, and its permission bits when its metadata can be read.
   */
  datatype DirEntry = DirEntry(name: string, isDir: bool, mode: Option<bv32>)

  /** The directories that can be listed (a missing key fails `read_dir`) and the PATH variable, if set. */
  datatype FileSystem = FileSystem(dirs: map<string, seq<DirEntry>>, pathVar: Option<string>)

  datatype DirPrefix = DirPrefix(dir: string, prefix: string)

  /** Rust's `rfind(c)` on text where `c` is one byte wide. */
  function LastIndexOf(s: string, c: char): (r: Option<nat>)
    ensures r.None? <==> c !in s
    ensures r.Some? ==> r.value < |s| && s[r.value] == c && c !in s[r.value + 1..]
  {
    if s == [] then None
    else if s[|s| - 1] == c then Some(|s| - 1)
    else
      assert s == s[..|s| - 1] + [s[|s| - 1]];
      LastIndexOf(s[..|s| - 1], c)
  }

  /** `split_dir_prefix`: the text before and after the last '/'; a leading '/' alone gives "/". */
  function SplitDirPrefix(path: string): (r: Option<DirPrefix>)
    ensures r.None? <==> '/' !in path
    ensures r.Some? ==> '/' !in r.value.prefix && r.value.dir != []
    ensures r.Some? && path[0] == '/' && '/' !in path[1..] ==>
              r.value.dir == "/" && path == "/" + r.value.prefix
    ensures r.Some? && !(path[0] == '/' && '/' !in path[1..]) ==>
              path == r.value.dir + "/" + r.value.prefix
  {
    match LastIndexOf(path, '/')
    case None => None
    case Some(idx) =>
      assert path == path[..idx] + "/" + path[idx + 1..];
      assert idx == 0 <==> (path[0] == '/' && '/' !in path[1..]) by {
        if idx > 0 && path[0] == '/' { assert path[1..][idx - 1] == '/'; }
        if idx == 0 { assert path[1..] == path[idx + 1..]; }
      }
      Some(DirPrefix(if idx == 0 then "/" else path[..idx], path[idx + 1..]))
  }

  /** What `list_dir_matches` pushes for an entry: its name, with '/' appended for a directory. */
  function Shown(e: DirEntry): string {
    if e.isDir then e.name + "/" else e.name
  }

  /** The names `list_dir_matches` pushes, in listing order, before sorting. */
  function DirCandidates(entries: seq<DirEntry>, prefix: string): (r: seq<string>)
    ensures forall m :: m in r ==> prefix <= m
    ensures forall i :: 0 <= i < |entries| && prefix <= entries[i].name ==> Shown(entries[i]) in r
    ensures forall m :: m in r ==> exists i :: 0 <= i < |entries| && prefix <= entries[i].name && m == Shown(entries[i])
  {
    if entries == [] then []
    else
      var last := entries[|entries| - 1];
      var init := entries[..|entries| - 1];
      var rest := DirCandidates(init, prefix);
      assert forall i :: 0 <= i < |init| ==> init[i] == entries[i];
      rest + (if prefix <= last.name then [Shown(last)] else [])
  }

  /**
   * `list_dir_matches(dir, prefix)`: the entries of `dir` whose name starts with
   * `prefix`, directories shown with a trailing '/', sorted. None when `dir`
   * cannot be read (the source's `io::Error`).
   */
  method ListDirMatches(fs: FileSystem, dir: string, prefix: string) returns (r: Option<seq<string>>)
    ensures r == DirMatches(fs, dir, prefix)
    ensures r.None? <==> dir !in fs.dirs
    ensures r.Some? ==> Sorted(r.value) && multiset(r.value) == multiset(DirCandidates(fs.dirs[dir], prefix))
    ensures r.Some? ==> forall m :: m in r.value ==> prefix <= m
  {
    if dir !in fs.dirs {
      return None;
    }
    var entries := fs.dirs[dir];
    var matches: seq<string> := [];
    var i := 0;
    while i < |entries|
      invariant 0 <= i <= |entries|
      invariant matches == DirCandidates(entries[..i], prefix)
    {
      assert entries[..i + 1][..i] == entries[..i];
      var name := entries[i].name;
      if prefix <= name {
        if entries[i].isDir {
          matches := matches + [name + "/"];
        } else {
          matches := matches + [name];
        }
      }
      i := i + 1;
    }
    assert entries[..i] == entries;
    var sorted := Sort(matches);
    forall m | m in sorted ensures prefix <= m {
      assert m in multiset(sorted);
      assert m in matches;
    }
    return Some(sorted);
  }

  /** The value `list_dir_matches` returns: the candidates of `dir` in sorted order, or None for a directory that cannot be read. */
  function DirMatches(fs: FileSystem, dir: string, prefix: string): Option<seq<string>> {
    if dir in fs.dirs then Some(Sort(DirCandidates(fs.dirs[dir], prefix))) else None
  }

  /** Every name `list_dir_matches` returns starts with the prefix. */
  lemma DirMatchesHavePrefix(fs: FileSystem, dir: string, prefix: string)
    ensures DirMatches(fs, dir, prefix).Some? ==> forall m :: m in DirMatches(fs, dir, prefix).value ==> prefix <= m
  {
    if dir in fs.dirs {
      var candidates := DirCandidates(fs.dirs[dir], prefix);
      forall m | m in Sort(candidates) ensures prefix <= m {
        assert m in multiset(Sort(candidates));
        assert m in candidates;
      }
    }
  }

  /** Some execute bit is set (`mode & 0o111 != 0`; 0o111 is 0x49). */
  predicate Executable(e: DirEntry) {
    e.mode.Some? && e.mode.value & 0x49 != 0
  }

  /** The names one PATH directory contributes: executable entries starting with `prefix`, in listing order. */
  function ExecCandidates(entries: seq<DirEntry>, prefix: string): (r: seq<string>)
    ensures forall m :: m in r <==> exists i :: 0 <= i < |entries| && prefix <= entries[i].name && Executable(entries[i]) && m == entries[i].name
  {
    if entries == [] then []
    else
      var last := entries[|entries| - 1];
      var init := entries[..|entries| - 1];
      assert forall i :: 0 <= i < |init| ==> init[i] == entries[i];
      ExecCandidates(init, prefix) + (if prefix <= last.name && Executable(last) then [last.name] else [])
  }

  /** The directories named by PATH, split on ':'; none when PATH is unset. */
  function PathDirs(fs: FileSystem): (r: seq<string>)
    ensures fs.pathVar.None? ==> r == []
    ensures fs.pathVar.Some? ==> Join(r, ':') == fs.pathVar.value && forall k :: 0 <= k < |r| ==> ':' !in r[k]
  {
    if fs.pathVar.Some? then
      JoinSplit(fs.pathVar.value, ':');
      Split(fs.pathVar.value, ':')
    else []
  }

  /** What the loops of `list_path_commands` push: the candidates of each readable directory, in PATH order. */
  function PathCandidates(fs: FileSystem, dirs: seq<string>, prefix: string): (r: seq<string>)
    ensures forall m :: m in r <==> exists d :: 0 <= d < |dirs| && dirs[d] in fs.dirs && m in ExecCandidates(fs.dirs[dirs[d]], prefix)
  {
    if dirs == [] then []
    else
      var init := dirs[..|dirs| - 1];
      var last := dirs[|dirs| - 1];
      assert forall d :: 0 <= d < |init| ==> init[d] == dirs[d];
      PathCandidates(fs, init, prefix) + (if last in fs.dirs then ExecCandidates(fs.dirs[last], prefix) else [])
  }

  /**
   * `list_path_commands(prefix)` on unix: every executable name starting with
   * `prefix` in a readable PATH directory, sorted and with duplicates removed.
   */
  method ListPathCommands(fs: FileSystem, prefix: string) returns (r: seq<string>)
    ensures r == PathMatches(fs, prefix)
    ensures StrictlySorted(r)
    ensures forall m :: m in r <==> m in PathCandidates(fs, PathDirs(fs), prefix)
    ensures forall m :: m in r ==> prefix <= m
  {
    var matches: seq<string> := [];
    var dirs := PathDirs(fs);
    var d := 0;
    while d < |dirs|
      invariant 0 <= d <= |dirs|
      invariant matches == PathCandidates(fs, dirs[..d], prefix)
    {
      PathCandidatesStep(fs, dirs, d, prefix);
      if dirs[d] in fs.dirs {
        var entries := fs.dirs[dirs[d]];
        ghost var before := matches;
        var i := 0;
        while i < |entries|
          invariant 0 <= i <= |entries|
          invariant matches == before + ExecCandidates(entries[..i], prefix)
        {
          ExecCandidatesStep(entries, i, prefix);
          var name := entries[i].name;
          if prefix <= name && Executable(entries[i]) {
            AppendAssoc(before, ExecCandidates(entries[..i], prefix), [name]);
            matches := matches + [name];
          }
          i := i + 1;
        }
        assert entries[..i] == entries;
      }
      d := d + 1;
    }
    assert dirs[..d] == dirs;
    var sorted := Sort(matches);
    r := Dedup(sorted);
    SortDedupKeeps(matches);
    PathCandidatesHavePrefix(fs, dirs, prefix);
  }

  /** The value `list_path_commands` returns: the PATH candidates sorted, each kept once. */
  function PathMatches(fs: FileSystem, prefix: string): seq<string> {
    Dedup(Sort(PathCandidates(fs, PathDirs(fs), prefix)))
  }

  /** Every name `list_path_commands` returns starts with the prefix. */
  lemma PathMatchesHavePrefix(fs: FileSystem, prefix: string)
    ensures forall m :: m in PathMatches(fs, prefix) ==> prefix <= m
  {
    SortDedupKeeps(PathCandidates(fs, PathDirs(fs), prefix));
    PathCandidatesHavePrefix(fs, PathDirs(fs), prefix);
  }

  /** One more entry of a directory. */
  lemma ExecCandidatesStep(entries: seq<DirEntry>, i: nat, prefix: string)
    requires i < |entries|
    ensures ExecCandidates(entries[..i + 1], prefix) ==
      ExecCandidates(entries[..i], prefix) + (if prefix <= entries[i].name && Executable(entries[i]) then [entries[i].name] else [])
  {
    assert entries[..i + 1][..i] == entries[..i];
  }

  /** One more PATH directory. */
  lemma PathCandidatesStep(fs: FileSystem, dirs: seq<string>, d: nat, prefix: string)
    requires d < |dirs|
    ensures PathCandidates(fs, dirs[..d + 1], prefix) ==
      PathCandidates(fs, dirs[..d], prefix) + (if dirs[d] in fs.dirs then ExecCandidates(fs.dirs[dirs[d]], prefix) else [])
  {
    assert dirs[..d + 1][..d] == dirs[..d];
  }

  /** Sorting and then removing duplicates keeps exactly the values, each once, in order. */
  lemma SortDedupKeeps(matches: seq<string>)
    ensures StrictlySorted(Dedup(Sort(matches)))
    ensures forall m :: m in Dedup(Sort(matches)) <==> m in matches
  {
    var sorted := Sort(matches);
    forall m ensures m in sorted <==> m in matches {
      assert m in sorted <==> m in multiset(sorted);
      assert m in matches <==> m in multiset(matches);
    }
    DedupSorted(sorted);
  }

  /** Every PATH candidate starts with the prefix. */
  lemma PathCandidatesHavePrefix(fs: FileSystem, dirs: seq<string>, prefix: string)
    ensures forall m :: m in PathCandidates(fs, dirs, prefix) ==> prefix <= m
  {
    forall m | m in PathCandidates(fs, dirs, prefix) ensures prefix <= m {
      var k :| 0 <= k < |dirs| && dirs[k] in fs.dirs && m in ExecCandidates(fs.dirs[dirs[k]], prefix);
    }
  }

  /** How many leading characters `a` and `b` share: `a.chars().zip(b.chars()).take_while(eq).count()`. */
  function SharedLen(a: string, b: string): (n: nat)
    ensures n <= |a| && n <= |b| && a[..n] == b[..n]
    ensures n == |a| || n == |b| || a[n] != b[n]
  {
    if a == [] || b == [] || a[0] != b[0] then 0
    else
      var n := SharedLen(a[1..], b[1..]);
      assert a[..n + 1] == [a[0]] + a[1..][..n];
      assert b[..n + 1] == [b[0]] + b[1..][..n];
      1 + n
  }

  /** `r` is a prefix of every string and (for a non-empty list) no longer common prefix exists. */
  predicate IsLongestCommonPrefix(r: string, strings: seq<string>) {
    (forall j :: 0 <= j < |strings| ==> r <= strings[j]) &&
    (strings != [] ==>
      r == strings[0] ||
      exists j :: 0 <= j < |strings| && (|strings[j]| == |r| || strings[j][|r|] != strings[0][|r|]))
  }

  /**
   * `common_prefix`: the longest common prefix, measured in characters; empty
   * for an empty list. As in the source, the bound starts at the first string's
   * byte length and is narrowed once per further string.
   */
  method CommonPrefix(strings: seq<string>) returns (r: string)
    ensures r == CommonPrefixOf(strings)
    ensures strings == [] ==> r == []
    ensures |strings| == 1 ==> r == strings[0]
    ensures IsLongestCommonPrefix(r, strings)
  {
    if strings == [] {
      return [];
    }
    var first := strings[0];
    var prefixLen := ByteLen(first);
    var j := 1;
    while j < |strings|
      invariant 1 <= j <= |strings|
      invariant forall k :: 1 <= k < j ==> prefixLen <= SharedLen(first, strings[k])
      invariant prefixLen == ByteLen(first) || exists k :: 1 <= k < j && prefixLen == SharedLen(first, strings[k])
    {
      prefixLen := Min(prefixLen, SharedLen(first, strings[j]));
      j := j + 1;
    }
    r := first[..Min(prefixLen, |first|)];
    CutIsLongest(strings, prefixLen);
    LongestCommonPrefixUnique(r, CommonPrefixOf(strings), strings);
  }

  /** Cutting the first string at the least length it shares with the others gives the longest common prefix. */
  lemma CutIsLongest(strings: seq<string>, prefixLen: nat)
    requires strings != []
    requires forall k :: 1 <= k < |strings| ==> prefixLen <= SharedLen(strings[0], strings[k])
    requires prefixLen == ByteLen(strings[0]) || exists k :: 1 <= k < |strings| && prefixLen == SharedLen(strings[0], strings[k])
    ensures IsLongestCommonPrefix(strings[0][..Min(prefixLen, |strings[0]|)], strings)
  {
    var first := strings[0];
    var r := first[..Min(prefixLen, |first|)];
    forall k | 1 <= k < |strings| ensures r <= strings[k] {
      assert first[..|r|] == strings[k][..|r|];
    }
  }

  /**
   * The longest common prefix as a value: the common prefix of all but the
   * last string, cut where it stops agreeing with the last one.
   */
  function CommonPrefixOf(strings: seq<string>): (r: string)
    ensures IsLongestCommonPrefix(r, strings)
    ensures strings == [] ==> r == []
  {
    if |strings| <= 1 then (if strings == [] then [] else strings[0])
    else
      var init := strings[..|strings| - 1];
      var last := strings[|strings| - 1];
      var p := CommonPrefixOf(init);
      assert forall j :: 0 <= j < |init| ==> init[j] == strings[j];
      var n := SharedLen(p, last);
      var r := p[..n];
      assert forall j :: 0 <= j < |strings| ==> r <= strings[j] by {
        forall j | 0 <= j < |strings| ensures r <= strings[j] {
          if j < |init| {
            assert p <= init[j];
          }
        }
      }
      if n < |p| then
        assert p <= strings[0];
        assert |last| == n || last[n] != strings[0][n];
        r
      else
        assert r == p;
        r
  }

  /** Every common prefix of a non-empty list is at most as long as a longest one. */
  lemma CommonPrefixBound(a: string, b: string, strings: seq<string>)
    requires strings != [] && IsLongestCommonPrefix(a, strings)
    requires forall j :: 0 <= j < |strings| ==> b <= strings[j]
    ensures |b| <= |a|
  {
    assert b <= strings[0];
    if a != strings[0] {
      var j :| 0 <= j < |strings| && (|strings[j]| == |a| || strings[j][|a|] != strings[0][|a|]);
      assert b <= strings[j];
    }
  }

  /** A non-empty list has exactly one longest common prefix. */
  lemma LongestCommonPrefixUnique(a: string, b: string, strings: seq<string>)
    requires strings != [] && IsLongestCommonPrefix(a, strings) && IsLongestCommonPrefix(b, strings)
    ensures a == b
  {
    CommonPrefixBound(a, b, strings);
    CommonPrefixBound(b, a, strings);
    assert a <= strings[0] && b <= strings[0];
  }

  /** Every string starting with `p` makes `p` a prefix of their longest common prefix. */
  lemma CommonPrefixExtends(r: string, strings: seq<string>, p: string)
    requires strings != [] && IsLongestCommonPrefix(r, strings)
    requires forall j :: 0 <= j < |strings| ==> p <= strings[j]
    ensures p <= r
  {
  }
}
