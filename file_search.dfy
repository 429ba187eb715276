/**
 * The scan engine and the search command around it: walk every file in
 * walk order, count it, report progress at the cadence, and collect the
 * joined paths of the files the chosen match policy accepts.
 */
module FileSearch {
  import opened DirWalk
  import opened MatchPolicy
  import opened Progress

  /** The joined paths of the entries that match, in the order of the entries. */
  function Select(es: seq<Entry>, mode: string, query: string, join: Joiner, ratio: Ratio): seq<string>
  {
    if es == [] then []
    else
      (if IsMatch(mode, query, es[0].name, ratio) then [join(es[0].root, es[0].name)] else [])
      + Select(es[1..], mode, query, join, ratio)
  }

  /** The matches the search must return for a walk. */
  function SpecMatches(walk: seq<Dir>, mode: string, query: string, join: Joiner, ratio: Ratio): seq<string>
  {
    Select(Entries(walk), mode, query, join, ratio)
  }

  lemma {:induction false} SelectAppend(a: seq<Entry>, b: seq<Entry>, mode: string, query: string, join: Joiner, ratio: Ratio)
    ensures Select(a + b, mode, query, join, ratio) == Select(a, mode, query, join, ratio) + Select(b, mode, query, join, ratio)
  {
    if a == [] {
      assert a + b == b;
    } else {
      assert (a + b)[1..] == a[1..] + b;
      SelectAppend(a[1..], b, mode, query, join, ratio);
    }
  }

  /** Visiting one more entry appends its path exactly when it matches. */
  lemma SelectStep(seen: seq<Entry>, e: Entry, mode: string, query: string, join: Joiner, ratio: Ratio)
    ensures Select(seen + [e], mode, query, join, ratio) ==
            Select(seen, mode, query, join, ratio) + (if IsMatch(mode, query, e.name, ratio) then [join(e.root, e.name)] else [])
  {
    SelectAppend(seen, [e], mode, query, join, ratio);
    assert ([e])[1..] == [];
  }

  /** Visiting file j of a directory appends its path exactly when it matches. */
  lemma SelectPrefixStep(d: Dir, j: nat, mode: string, query: string, join: Joiner, ratio: Ratio)
    requires j < |d.files|
    ensures Select(DirEntries(d)[..j + 1], mode, query, join, ratio) ==
            Select(DirEntries(d)[..j], mode, query, join, ratio) +
            (if IsMatch(mode, query, d.files[j], ratio) then [join(d.root, d.files[j])] else [])
  {
    assert DirEntries(d)[..j + 1] == DirEntries(d)[..j] + [Entry(d.root, d.files[j])];
    SelectStep(DirEntries(d)[..j], Entry(d.root, d.files[j]), mode, query, join, ratio);
  }

  /** The matches keep the visiting order and leave out only non-matching paths. */
  lemma {:induction false} SelectIsSubsequence(es: seq<Entry>, mode: string, query: string, join: Joiner, ratio: Ratio)
    ensures IsSubsequence(Select(es, mode, query, join, ratio), Paths(es, join))
  {
    if es != [] {
      SelectIsSubsequence(es[1..], mode, query, join, ratio);
      var xs, ys := Select(es, mode, query, join, ratio), Paths(es, join);
      assert ys[1..] == Paths(es[1..], join);
      if IsMatch(mode, query, es[0].name, ratio) {
        assert xs[0] == ys[0] && xs[1..] == Select(es[1..], mode, query, join, ratio);
      } else {
        assert xs == Select(es[1..], mode, query, join, ratio);
      }
    }
  }

  /** The matches are an order-preserving subsequence of the visited paths, so no more than the files scanned. */
  lemma MatchesAreSubsequenceOfVisited(walk: seq<Dir>, mode: string, query: string, join: Joiner, ratio: Ratio)
    ensures IsSubsequence(SpecMatches(walk, mode, query, join, ratio), Visited(walk, join))
    ensures |SpecMatches(walk, mode, query, join, ratio)| <= TotalFiles(walk)
  {
    SelectIsSubsequence(Entries(walk), mode, query, join, ratio);
    SubsequenceLength(SpecMatches(walk, mode, query, join, ratio), Visited(walk, join));
    VisitedLength(walk, join);
  }

  /**
   * Every matching entry has its path among the matches, and every path
   * among the matches is the path of some matching entry.
   */
  lemma {:induction false} SelectMembership(es: seq<Entry>, mode: string, query: string, join: Joiner, ratio: Ratio)
    ensures forall k :: 0 <= k < |es| && IsMatch(mode, query, es[k].name, ratio) ==>
              join(es[k].root, es[k].name) in Select(es, mode, query, join, ratio)
    ensures forall p :: p in Select(es, mode, query, join, ratio) ==>
              exists k :: 0 <= k < |es| && IsMatch(mode, query, es[k].name, ratio) && join(es[k].root, es[k].name) == p
  {
    if es != [] {
      SelectMembership(es[1..], mode, query, join, ratio);
      var tail := es[1..];
      assert forall k :: 1 <= k < |es| ==> es[k] == tail[k - 1];
      forall p | p in Select(es, mode, query, join, ratio)
        ensures exists k :: 0 <= k < |es| && IsMatch(mode, query, es[k].name, ratio) && join(es[k].root, es[k].name) == p
      {
        if p !in Select(tail, mode, query, join, ratio) {
          assert IsMatch(mode, query, es[0].name, ratio) && join(es[0].root, es[0].name) == p;
        } else {
          var k :| 0 <= k < |tail| && IsMatch(mode, query, tail[k].name, ratio) && join(tail[k].root, tail[k].name) == p;
          assert es[k + 1] == tail[k];
        }
      }
    }
  }

  /**
   * No visited file other than (root, name) itself has the path
   * join(root, name).  This is all the iff lemmas below need of the path
   * joining; SlashJoinUniquePath shows that a separator join meets it when
   * file names contain no separator.
   */
  ghost predicate UniquePath(walk: seq<Dir>, join: Joiner, root: string, name: string)
  {
    forall e :: e in Entries(walk) && join(e.root, e.name) == join(root, name) ==> e == Entry(root, name)
  }

  /**
   * When no other visited file shares its path, the path of a directory
   * and a name is among the matches exactly when the walk visits that name
   * under that directory and the name matches.
   */
  lemma MatchedPathsIff(walk: seq<Dir>, mode: string, query: string, join: Joiner, ratio: Ratio, root: string, name: string)
    requires UniquePath(walk, join, root, name)
    ensures join(root, name) in SpecMatches(walk, mode, query, join, ratio) <==>
            Entry(root, name) in Entries(walk) && IsMatch(mode, query, name, ratio)
  {
    var es := Entries(walk);
    SelectMembership(es, mode, query, join, ratio);
    if Entry(root, name) in es && IsMatch(mode, query, name, ratio) {
      var k :| 0 <= k < |es| && es[k] == Entry(root, name);
      assert join(es[k].root, es[k].name) in Select(es, mode, query, join, ratio);
    }
    if join(root, name) in SpecMatches(walk, mode, query, join, ratio) {
      var k :| 0 <= k < |es| && IsMatch(mode, query, es[k].name, ratio) && join(es[k].root, es[k].name) == join(root, name);
      assert es[k] in es;
      assert es[k] == Entry(root, name);
    }
  }

  /**
   * "extension" mode: when no other visited file shares its path, the path
   * of a file is among the matches exactly when the walk lists the file and
   * its name ends with the query.
   */
  lemma ExtensionMatchesIff(walk: seq<Dir>, query: string, join: Joiner, ratio: Ratio, root: string, name: string)
    requires UniquePath(walk, join, root, name)
    ensures join(root, name) in SpecMatches(walk, "extension", query, join, ratio) <==>
            (exists i :: 0 <= i < |walk| && walk[i].root == root && name in walk[i].files) && EndsWith(name, query)
  {
    MatchedPathsIff(walk, "extension", query, join, ratio, root, name);
    EntriesMembership(walk, root, name);
  }

  /**
   * "filename" mode: when no other visited file shares its path, the path
   * of a file is among the matches exactly when the walk lists the file and
   * the score of the lower-cased query and name reaches the threshold.
   */
  lemma FilenameMatchesIff(walk: seq<Dir>, query: string, join: Joiner, ratio: Ratio, root: string, name: string)
    requires UniquePath(walk, join, root, name)
    ensures join(root, name) in SpecMatches(walk, "filename", query, join, ratio) <==>
            (exists i :: 0 <= i < |walk| && walk[i].root == root && name in walk[i].files) &&
            ratio(Lower(query), Lower(name)) >= FuzzyThreshold
  {
    MatchedPathsIff(walk, "filename", query, join, ratio, root, name);
    EntriesMembership(walk, root, name);
  }

  /** Joining with a "/" separator between the directory and the name. */
  function SlashJoin(root: string, name: string): string
  {
    root + "/" + name
  }

  /** The name has no "/" in it, as a bare file name listed in a directory has not. */
  predicate BareName(name: string)
  {
    forall i :: 0 <= i < |name| ==> name[i] != '/'
  }

  /**
   * Separator joins of bare names never collide: the last "/" of the path
   * fixes where the directory ends and the name begins.
   */
  lemma SlashJoinInjectiveOnBareNames(r1: string, f1: string, r2: string, f2: string)
    requires BareName(f1) && BareName(f2)
    requires SlashJoin(r1, f1) == SlashJoin(r2, f2)
    ensures r1 == r2 && f1 == f2
  {
    var s := SlashJoin(r1, f1);
    var n := |s|;
    assert s[n - 1 - |f1|] == '/';
    assert s == SlashJoin(r2, f2);
    assert s[n - 1 - |f2|] == '/';
    if |f1| != |f2| {
      assert false;
    }
    assert f1 == s[n - |f1|..] == f2;
    assert r1 == s[..n - 1 - |f1|] == r2;
  }

  /**
   * A walk whose file names are all bare meets UniquePath for separator
   * joining, for every bare name under any directory.
   */
  lemma SlashJoinUniquePath(walk: seq<Dir>, root: string, name: string)
    requires forall i, j :: 0 <= i < |walk| && 0 <= j < |walk[i].files| ==> BareName(walk[i].files[j])
    requires BareName(name)
    ensures UniquePath(walk, SlashJoin, root, name)
  {
    forall e | e in Entries(walk) && SlashJoin(e.root, e.name) == SlashJoin(root, name)
      ensures e == Entry(root, name)
    {
      EntriesMembership(walk, e.root, e.name);
      var i :| 0 <= i < |walk| && walk[i].root == e.root && e.name in walk[i].files;
      var j :| 0 <= j < |walk[i].files| && walk[i].files[j] == e.name;
      SlashJoinInjectiveOnBareNames(e.root, e.name, root, name);
    }
  }

  /** An empty query in "extension" mode selects every visited path, in order. */
  lemma {:induction false} EmptyExtensionSelectsAll(es: seq<Entry>, join: Joiner, ratio: Ratio)
    ensures Select(es, "extension", "", join, ratio) == Paths(es, join)
  {
    if es != [] {
      EmptySuffixMatches(es[0].name, ratio);
      EmptyExtensionSelectsAll(es[1..], join, ratio);
    }
  }

  /** Any mode other than "filename" and "extension" selects nothing. */
  lemma {:induction false} OtherModesSelectNothing(es: seq<Entry>, mode: string, query: string, join: Joiner, ratio: Ratio)
    requires mode != "filename" && mode != "extension"
    ensures Select(es, mode, query, join, ratio) == []
  {
    if es != [] {
      OtherModesSelectNothing(es[1..], mode, query, join, ratio);
    }
  }

  /**
   * The inner loop of the scan engine, over the files of one walk item:
   * each file is counted, a progress report is recorded whenever the count
   * reaches a multiple of the cadence, and the joined path of each
   * matching file is appended to the matches found so far.
   */
  method ScanDir(d: Dir, mode: string, query: string, join: Joiner, ratio: Ratio,
                 matches0: seq<string>, filesScanned0: nat, progress0: seq<nat>)
    returns (matches: seq<string>, filesScanned: nat, progress: seq<nat>)
    requires progress0 == Milestones(filesScanned0)
    ensures filesScanned == filesScanned0 + |d.files|
    ensures matches == matches0 + Select(DirEntries(d), mode, query, join, ratio)
    ensures progress == Milestones(filesScanned)
  {
    matches, filesScanned, progress := matches0, filesScanned0, progress0;
    var root, files := d.root, d.files;
    var j := 0;
    while j < |files|
      invariant 0 <= j <= |files|
      invariant filesScanned == filesScanned0 + j
      invariant matches == matches0 + Select(DirEntries(d)[..j], mode, query, join, ratio)
      invariant progress == Milestones(filesScanned)
    {
      var file := files[j];
      filesScanned := filesScanned + 1;
      var path := join(root, file);

      if filesScanned % Cadence == 0 {
        progress := progress + [filesScanned];
      }

      ghost var before := matches;
      if mode == "filename" {
        if ratio(Lower(query), Lower(file)) >= FuzzyThreshold {
          matches := matches + [path];
        }
      } else if mode == "extension" && EndsWith(file, query) {
        matches := matches + [path];
      }

      assert matches == before + (if IsMatch(mode, query, file, ratio) then [path] else []);
      SelectPrefixStep(d, j, mode, query, join, ratio);
      j := j + 1;
    }
    assert DirEntries(d)[..j] == DirEntries(d);
  }

  /**
   * The scan engine.  Visits the files of the walk in order, counts each,
   * records a progress report whenever the count reaches a multiple of
   * the cadence, and collects the joined path of each matching file.
   */
  method SearchWithProgress(walk: seq<Dir>, mode: string, query: string, join: Joiner, ratio: Ratio)
    returns (matches: seq<string>, filesScanned: nat, progress: seq<nat>)
    ensures filesScanned == TotalFiles(walk)
    ensures matches == SpecMatches(walk, mode, query, join, ratio)
    ensures progress == Milestones(filesScanned)
  {
    matches, filesScanned, progress := [], 0, [];
    var i := 0;
    while i < |walk|
      invariant 0 <= i <= |walk|
      invariant filesScanned == TotalFiles(walk[..i])
      invariant matches == Select(Entries(walk[..i]), mode, query, join, ratio)
      invariant progress == Milestones(filesScanned)
    {
      matches, filesScanned, progress := ScanDir(walk[i], mode, query, join, ratio, matches, filesScanned, progress);
      assert walk[..i + 1] == walk[..i] + [walk[i]];
      EntriesAppend(walk[..i], walk[i]);
      SelectAppend(Entries(walk[..i]), DirEntries(walk[i]), mode, query, join, ratio);
      TotalFilesAppend(walk[..i], walk[i]);
      i := i + 1;
    }
    assert walk[..i] == walk;
  }

  /** What the search command ends with. */
  datatype Outcome =
    | FolderMissing
    | Counted(total: nat)
    | Searched(matches: seq<string>, scanned: nat, progress: seq<nat>)

  /**
   * The search command.  A folder that does not exist stops it before any
   * walking; "count" mode sums the lengths of the file lists of the walk
   * without reporting progress; every other mode runs the scan engine.
   */
  method RunSearch(folderExists: bool, walk: seq<Dir>, mode: string, query: string, join: Joiner, ratio: Ratio)
    returns (outcome: Outcome)
    ensures !folderExists <==> outcome == FolderMissing
    ensures folderExists && mode == "count" ==> outcome == Counted(TotalFiles(walk))
    ensures folderExists && mode != "count" ==>
              outcome == Searched(SpecMatches(walk, mode, query, join, ratio), TotalFiles(walk), Milestones(TotalFiles(walk)))
  {
    if !folderExists {
      return FolderMissing;
    }
    if mode == "count" {
      return Counted(TotalFiles(walk));
    }
    var matches, scanned, progress := SearchWithProgress(walk, mode, query, join, ratio);
    outcome := Searched(matches, scanned, progress);
  }
}
