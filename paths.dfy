/**
 * The final segment of a `/`-separated object key, as Node's POSIX
 * `path.basename` computes it: trailing separators are ignored, and the
 * result is the run of non-separator characters that then ends the key.
 */
module Paths {

  const Sep: char := '/'

  /** `key` with every trailing separator removed. */
  function TrimTrailing(key: string): (r: string)
    ensures |r| <= |key| && r == key[..|r|]
    ensures r == [] || r[|r| - 1] != Sep
    ensures forall k :: |r| <= k < |key| ==> key[k] == Sep
    decreases |key|
  {
    if |key| > 0 && key[|key| - 1] == Sep then TrimTrailing(key[..|key| - 1]) else key
  }

  /** The longest suffix of `s` that holds no separator. */
  function LastRun(s: string): (r: string)
    ensures Sep !in r
    ensures |r| <= |s| && r == s[|s| - |r|..]
    ensures |r| < |s| ==> s[|s| - |r| - 1] == Sep
    decreases |s|
  {
    if s == [] || s[|s| - 1] == Sep then [] else LastRun(s[..|s| - 1]) + [s[|s| - 1]]
  }

  /** `path.basename(key)` for a POSIX path. */
  function Basename(key: string): (r: string)
    ensures IsFinalSegment(key, r)
  {
    var t := TrimTrailing(key);
    var r := LastRun(t);
    assert SegmentAt(key, r, |t| - |r|, |t|);
    r
  }

  /**
   * `name` is the final segment of `key`: a separator-free slice of the key
   * that starts at the beginning or just after a separator and is followed
   * only by separators. It is empty only when the key is all separators.
   */
  ghost predicate IsFinalSegment(key: string, name: string)
  {
    && Sep !in name
    && (name == [] ==> forall k :: 0 <= k < |key| ==> key[k] == Sep)
    && exists i, j :: SegmentAt(key, name, i, j)
  }

  ghost predicate SegmentAt(key: string, name: string, i: int, j: int)
  {
    && 0 <= i <= j <= |key|
    && name == key[i..j]
    && (i == 0 || key[i - 1] == Sep)
    && (forall k :: j <= k < |key| ==> key[k] == Sep)
  }

  /** A non-empty final segment ends where the trimmed key ends. */
  lemma SegmentEndsAtTrim(key: string, name: string, i: int, j: int)
    requires SegmentAt(key, name, i, j) && name != [] && Sep !in name
    ensures j == |TrimTrailing(key)|
  {
    var t := TrimTrailing(key);
    assert key[j - 1] == name[|name| - 1] && name[|name| - 1] in name;
  }

  /** A separator-free suffix of `t` preceded by a separator (or by nothing) is its last run. */
  lemma SuffixIsLastRun(t: string, name: string, i: int)
    requires 0 <= i <= |t| && name == t[i..] && Sep !in name
    requires i == 0 || t[i - 1] == Sep
    ensures name == LastRun(t)
  {
    var r := LastRun(t);
    var j := |t| - |r|;
    if j < i {
      assert false;
    } else if i < j {
      assert false;
    }
  }

  /** No other string is the final segment of `key`. */
  lemma BasenameUnique(key: string, name: string)
    requires IsFinalSegment(key, name)
    ensures name == Basename(key)
  {
    var t := TrimTrailing(key);
    var i, j :| SegmentAt(key, name, i, j);
    if name == [] {
      assert t == [];
    } else {
      SegmentEndsAtTrim(key, name, i, j);
      assert name == t[i..];
      SuffixIsLastRun(t, name, i);
    }
  }

  /** Basename returns exactly the final segment, in both directions. */
  lemma BasenameSpec(key: string, name: string)
    ensures IsFinalSegment(key, name) <==> name == Basename(key)
  {
    if IsFinalSegment(key, name) {
      BasenameUnique(key, name);
    }
  }

  /** A key without any separator is its own basename. */
  lemma BasenameOfPlainKey(key: string)
    requires Sep !in key
    ensures Basename(key) == key
  {
    assert SegmentAt(key, key, 0, |key|);
    BasenameUnique(key, key);
  }

  /** The basename of `dir/file` is `file`, whatever `dir` holds. */
  lemma BasenameOfJoin(dir: string, file: string)
    requires Sep !in file && file != []
    ensures Basename(dir + [Sep] + file) == file
  {
    var key := dir + [Sep] + file;
    assert SegmentAt(key, file, |dir| + 1, |key|);
    BasenameUnique(key, file);
  }
}
