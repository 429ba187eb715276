/**
 * The directory walk the search consumes, taken as a value: the sequence of
 * (directory, file names) items that a recursive walk of the chosen folder
 * yields, in the order it yields them.  Sub-directory lists are not part
 * of an item because the search never looks at them.
 */
module DirWalk {

  /** One item of the walk: a directory path and the names of the files directly in it. */
  datatype Dir = Dir(root: string, files: seq<string>)

  /** One visited file: the directory it was listed under and its bare name. */
  datatype Entry = Entry(root: string, name: string)

  /** Path joining, left abstract: any total function from a directory and a name to a path. */
  type Joiner = (string, string) -> string

  /** The files of one walk item, in listing order. */
  function DirEntries(d: Dir): seq<Entry>
  {
    seq(|d.files|, k requires 0 <= k < |d.files| => Entry(d.root, d.files[k]))
  }

  /** Every file of the walk, in the order the nested loops visit them. */
  function Entries(walk: seq<Dir>): seq<Entry>
  {
    if walk == [] then [] else DirEntries(walk[0]) + Entries(walk[1..])
  }

  /** The number of files in the walk: the sum of the lengths of the file lists. */
  function TotalFiles(walk: seq<Dir>): nat
  {
    if walk == [] then 0 else |walk[0].files| + TotalFiles(walk[1..])
  }

  /** The joined path of every entry, in order. */
  function Paths(es: seq<Entry>, join: Joiner): seq<string>
  {
    if es == [] then [] else [join(es[0].root, es[0].name)] + Paths(es[1..], join)
  }

  /** The paths the search visits, in visiting order. */
  function Visited(walk: seq<Dir>, join: Joiner): seq<string>
  {
    Paths(Entries(walk), join)
  }

  /**
   * xs can be obtained from ys by deleting elements, keeping the order of
   * the rest.
   */
  ghost predicate IsSubsequence<T>(xs: seq<T>, ys: seq<T>)
  {
    if ys == [] then xs == []
    else (xs != [] && xs[0] == ys[0] && IsSubsequence(xs[1..], ys[1..])) || IsSubsequence(xs, ys[1..])
  }

  lemma {:induction false} SubsequenceLength<T>(xs: seq<T>, ys: seq<T>)
    requires IsSubsequence(xs, ys)
    ensures |xs| <= |ys|
  {
    if ys != [] {
      if xs != [] && xs[0] == ys[0] && IsSubsequence(xs[1..], ys[1..]) {
        SubsequenceLength(xs[1..], ys[1..]);
      } else {
        SubsequenceLength(xs, ys[1..]);
      }
    }
  }

  /** Walking one more directory appends exactly that directory's files. */
  lemma {:induction false} EntriesAppend(walk: seq<Dir>, d: Dir)
    ensures Entries(walk + [d]) == Entries(walk) + DirEntries(d)
  {
    if walk == [] {
      assert walk + [d] == [d];
      assert ([d])[1..] == [];
    } else {
      assert (walk + [d])[1..] == walk[1..] + [d];
      EntriesAppend(walk[1..], d);
    }
  }

  lemma {:induction false} TotalFilesConcat(a: seq<Dir>, b: seq<Dir>)
    ensures TotalFiles(a + b) == TotalFiles(a) + TotalFiles(b)
  {
    if a == [] {
      assert a + b == b;
    } else {
      assert (a + b)[1..] == a[1..] + b;
      TotalFilesConcat(a[1..], b);
    }
  }

  /** Walking one more directory adds the length of its file list. */
  lemma TotalFilesAppend(walk: seq<Dir>, d: Dir)
    ensures TotalFiles(walk + [d]) == TotalFiles(walk) + |d.files|
  {
    TotalFilesConcat(walk, [d]);
    assert ([d])[1..] == [];
  }

  /** The count-mode sum is the number of files the nested loops visit. */
  lemma {:induction false} TotalFilesCountsEntries(walk: seq<Dir>)
    ensures TotalFiles(walk) == |Entries(walk)|
  {
    if walk != [] {
      TotalFilesCountsEntries(walk[1..]);
    }
  }

  /** One path is visited per file of the walk, whatever the path joining. */
  lemma VisitedLength(walk: seq<Dir>, join: Joiner)
    ensures |Visited(walk, join)| == TotalFiles(walk)
  {
    TotalFilesCountsEntries(walk);
    PathsLength(Entries(walk), join);
  }

  lemma {:induction false} PathsLength(es: seq<Entry>, join: Joiner)
    ensures |Paths(es, join)| == |es|
    ensures forall k :: 0 <= k < |es| ==> Paths(es, join)[k] == join(es[k].root, es[k].name)
  {
    if es != [] {
      PathsLength(es[1..], join);
    }
  }

  /** A file is visited exactly when some walk item lists it under its directory. */
  lemma {:induction false} EntriesMembership(walk: seq<Dir>, root: string, name: string)
    ensures Entry(root, name) in Entries(walk) <==>
            exists i :: 0 <= i < |walk| && walk[i].root == root && name in walk[i].files
  {
    if walk != [] {
      EntriesMembership(walk[1..], root, name);
      var d := walk[0];
      assert Entry(root, name) in DirEntries(d) <==> d.root == root && name in d.files by {
        if Entry(root, name) in DirEntries(d) {
          var k :| 0 <= k < |DirEntries(d)| && DirEntries(d)[k] == Entry(root, name);
          assert d.files[k] == name;
        }
        if d.root == root && name in d.files {
          var k :| 0 <= k < |d.files| && d.files[k] == name;
          assert DirEntries(d)[k] == Entry(root, name);
        }
      }
      if exists i :: 0 <= i < |walk[1..]| && walk[1..][i].root == root && name in walk[1..][i].files {
        var i :| 0 <= i < |walk[1..]| && walk[1..][i].root == root && name in walk[1..][i].files;
        assert walk[i + 1] == walk[1..][i];
      }
      if exists i :: 0 <= i < |walk| && walk[i].root == root && name in walk[i].files {
        var i :| 0 <= i < |walk| && walk[i].root == root && name in walk[i].files;
        if i > 0 {
          assert walk[1..][i - 1] == walk[i];
        }
      }
    }
  }

  /** Taking one directory out of the walk takes its files out of the total. */
  lemma TotalFilesRemoveAt(walk: seq<Dir>, k: nat)
    requires k < |walk|
    ensures TotalFiles(walk) == |walk[k].files| + TotalFiles(walk[..k] + walk[k + 1..])
  {
    assert walk == walk[..k] + ([walk[k]] + walk[k + 1..]);
    TotalFilesConcat(walk[..k], [walk[k]] + walk[k + 1..]);
    TotalFilesConcat(walk[..k], walk[k + 1..]);
    assert ([walk[k]] + walk[k + 1..])[1..] == walk[k + 1..];
  }

  lemma MultisetRemoveAt<T>(s: seq<T>, k: nat)
    requires k < |s|
    ensures multiset(s[..k] + s[k + 1..]) == multiset(s) - multiset{s[k]}
  {
    var front, back := s[..k], s[k + 1..];
    assert s == front + ([s[k]] + back);
    assert multiset(s) == multiset(front) + (multiset{s[k]} + multiset(back));
  }

  /** Removing the first item of one walk and a copy of it from a permutation leaves permutations. */
  lemma PermutationRemove<T>(s: seq<T>, t: seq<T>, k: nat)
    requires multiset(s) == multiset(t) && s != [] && k < |t| && t[k] == s[0]
    ensures multiset(s[1..]) == multiset(t[..k] + t[k + 1..])
  {
    MultisetRemoveAt(t, k);
    assert s == [s[0]] + s[1..];
    assert multiset(s) == multiset{s[0]} + multiset(s[1..]);
  }

  /**
   * The total file count does not depend on the order in which the walk
   * yields its directories.
   */
  lemma {:induction false} TotalFilesOrderIndependent(walk: seq<Dir>, other: seq<Dir>)
    requires multiset(walk) == multiset(other)
    ensures TotalFiles(walk) == TotalFiles(other)
    decreases |walk|
  {
    if walk == [] {
      assert |other| == |multiset(other)| == 0;
    } else {
      assert walk[0] in multiset(walk);
      var k :| 0 <= k < |other| && other[k] == walk[0];
      PermutationRemove(walk, other, k);
      TotalFilesOrderIndependent(walk[1..], other[..k] + other[k + 1..]);
      TotalFilesRemoveAt(other, k);
    }
  }
}
