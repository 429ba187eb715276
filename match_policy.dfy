/**
 * The per-file match policies of the search: a fuzzy comparison of the
 * lower-cased query with the lower-cased file name in "filename" mode, a
 * literal case-sensitive suffix test in "extension" mode, and no match in
 * any other mode.
 */
module MatchPolicy {

  /**
   * The fuzzy similarity score of two strings, left abstract: any total
   * function to a real number stands for the sequence matcher's ratio.
   */
  type Ratio = (string, string) -> real

  /** A file name matches a fuzzy query when its score reaches this value. */
  const FuzzyThreshold: real := 0.6

  /** Lower-cases one ASCII letter; every other character is kept. */
  function LowerChar(c: char): char
  {
    if 'A' <= c <= 'Z' then (c as int + 32) as char else c
  }

  predicate IsUpper(c: char)
  {
    'A' <= c <= 'Z'
  }

  /** The string with each ASCII capital replaced by its small letter. */
  function Lower(s: string): (r: string)
    ensures |r| == |s|
    ensures forall i :: 0 <= i < |r| ==> !IsUpper(r[i])
    ensures forall i :: 0 <= i < |s| && !IsUpper(s[i]) ==> r[i] == s[i]
    ensures forall i :: 0 <= i < |s| && IsUpper(s[i]) ==> r[i] as int == s[i] as int + 32
  {
    seq(|s|, i requires 0 <= i < |s| => LowerChar(s[i]))
  }

  /** Lower-casing twice is lower-casing once. */
  lemma LowerIdempotent(s: string)
    ensures Lower(Lower(s)) == Lower(s)
  {
    var t := Lower(s);
    assert forall i :: 0 <= i < |t| ==> Lower(t)[i] == t[i];
  }

  /** The literal, case-sensitive suffix test of the "extension" mode. */
  predicate EndsWith(name: string, suffix: string)
  {
    |suffix| <= |name| && name[|name| - |suffix|..] == suffix
  }

  /** A name ends with a suffix exactly when it is some prefix followed by that suffix. */
  lemma EndsWithIff(name: string, suffix: string)
    ensures EndsWith(name, suffix) <==> exists prefix :: name == prefix + suffix
  {
    if EndsWith(name, suffix) {
      var prefix := name[..|name| - |suffix|];
      assert name == prefix + suffix;
    }
    if exists prefix :: name == prefix + suffix {
      var prefix :| name == prefix + suffix;
      assert name[|name| - |suffix|..] == suffix;
    }
  }

  /** The suffix test takes the query literally: no case folding, no dot handling. */
  lemma EndsWithExamples()
    ensures EndsWith("report.txt", ".txt")
    ensures !EndsWith("report.TXT", ".txt")
    ensures !EndsWith("report.txtx", ".txt")
    ensures !EndsWith("txt", ".txt")
    ensures EndsWith("report.txt", "")
  {
    assert "report.txt"[6..] == ".txt";
    assert "report.TXT"[6..] != ".txt" by {
      assert "report.TXT"[6..][1] == 'T';
    }
    assert "report.txtx"[7..] != ".txt" by {
      assert "report.txtx"[7..][0] == 't';
    }
  }

  /**
   * Whether the file called name is a match for query under mode, given
   * the fuzzy score function.
   */
  predicate IsMatch(mode: string, query: string, name: string, ratio: Ratio)
  {
    if mode == "filename" then ratio(Lower(query), Lower(name)) >= FuzzyThreshold
    else if mode == "extension" then EndsWith(name, query)
    else false
  }

  /**
   * The "filename" mode ignores ASCII case on both sides: lower-casing the
   * query or the name first changes nothing.
   */
  lemma FilenameModeIgnoresCase(query: string, name: string, ratio: Ratio)
    ensures IsMatch("filename", query, name, ratio) == IsMatch("filename", Lower(query), Lower(name), ratio)
  {
    LowerIdempotent(query);
    LowerIdempotent(name);
  }

  /**
   * With a score that gives 1 to equal strings, a name equal to the query
   * up to ASCII case always matches in "filename" mode; with a score of 0
   * it never does.
   */
  lemma FuzzyBoundaries(query: string, name: string, ratio: Ratio)
    ensures Lower(query) == Lower(name) && ratio(Lower(name), Lower(name)) == 1.0 ==>
              IsMatch("filename", query, name, ratio)
    ensures ratio(Lower(query), Lower(name)) == 0.0 ==> !IsMatch("filename", query, name, ratio)
  {
  }

  /** An empty query is a suffix of every name, so "extension" mode matches every file. */
  lemma EmptySuffixMatches(name: string, ratio: Ratio)
    ensures IsMatch("extension", "", name, ratio)
  {
    assert name[|name|..] == "";
  }
}
