/** The depth walk that keeps stored files below the base directory (src/rde/external_storer_file.cpp:31-54). */
module PathGuard {
  /** Components of a relative path, as std::filesystem iterates them. */
  type Parts = seq<string>

  /** The walk's counter; a step below zero is a traversal attempt. */
  function Depth(parts: Parts): (d: int) {
    if parts == [] then 0
    else
      var d, part := Depth(parts[..|parts| - 1]), parts[|parts| - 1];
      if part == ".." then d - 1 else if part != "." then d + 1 else d
  }

  /** Directories below the base that the path is in after resolving it, or Above if it ever left the base. */
  datatype Place = Below(dirs: Parts) | Above

  function Resolve(parts: Parts): (p: Place) {
    if parts == [] then Below([])
    else
      var p, part := Resolve(parts[..|parts| - 1]), parts[|parts| - 1];
      if p.Above? then Above
      else if part == ".." then (if p.dirs == [] then Above else Below(p.dirs[..|p.dirs| - 1]))
      else if part == "." || part == "" then p
      else Below(p.dirs + [part])
  }

  /** std::filesystem yields an empty component only for a trailing separator. */
  ghost predicate EmptyOnlyLast(parts: Parts) {
    forall i :: 0 <= i < |parts| - 1 ==> parts[i] != ""
  }

  /** The counter is negative after no prefix. */
  ghost predicate NeverNegative(parts: Parts) {
    parts == [] || (NeverNegative(parts[..|parts| - 1]) && Depth(parts) >= 0)
  }

  lemma {:induction false} PrefixNeverNegative(parts: Parts, k: nat)
    requires k <= |parts| && NeverNegative(parts)
    ensures NeverNegative(parts[..k]) && Depth(parts[..k]) >= 0
    decreases |parts|
  {
    if k < |parts| {
      var front := parts[..|parts| - 1];
      PrefixNeverNegative(front, k);
      assert front[..k] == parts[..k];
    } else {
      assert parts[..k] == parts;
    }
  }

  method IsValidPath(relativePath: Parts) returns (valid: bool)
    ensures valid <==> NeverNegative(relativePath)
  {
    var depth := 0;
    for i := 0 to |relativePath|
      invariant depth == Depth(relativePath[..i])
      invariant NeverNegative(relativePath[..i])
    {
      var part := relativePath[i];
      assert relativePath[..i + 1][..i] == relativePath[..i];
      if part == ".." {
        depth := depth - 1;
        if depth < 0 {
          if NeverNegative(relativePath) {
            PrefixNeverNegative(relativePath, i + 1);
          }
          return false;
        }
      } else if part != "." {
        depth := depth + 1;
      }
    }
    assert relativePath[..|relativePath|] == relativePath;
    return true;
  }

  /** While no empty component occurs the counter is the number of directories below the base. */
  lemma {:induction false} DepthCounts(parts: Parts)
    requires "" !in parts
    ensures NeverNegative(parts) <==> Resolve(parts).Below?
    ensures Resolve(parts).Below? ==> Depth(parts) == |Resolve(parts).dirs|
  {
    if parts == [] {
      assert parts[..0] == [];
    } else {
      var n := |parts| - 1;
      DepthCounts(parts[..n]);
    }
  }

  /** The check accepts exactly the paths that stay below the base. */
  lemma ValidStaysBelow(parts: Parts)
    requires EmptyOnlyLast(parts)
    ensures NeverNegative(parts) <==> Resolve(parts).Below?
  {
    if parts != [] {
      var front := parts[..|parts| - 1];
      assert "" !in front;
      DepthCounts(front);
    } else {
      DepthCounts(parts);
    }
  }

  /** The restriction is needed: an empty component elsewhere would be counted as a directory. */
  lemma InnerEmptyComponentMiscounts()
    ensures NeverNegative(["", ".."]) && Resolve(["", ".."]) == Above
  {
    var p := ["", ".."];
    assert p[..1] == [""] && [""][..0] == [];
  }
}
