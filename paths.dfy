/**
 * The path mapping of `destination` in exfatmirror.py. A path is the sequence
 * of its pathlib parts (an absolute path starts with the part "/"). The parts
 * of a walked path below the source root are sanitised one by one and put
 * under the destination root; the parts of the source root itself are only
 * compared, never sanitised.
 */
module ExfatPaths {
  import opened ExfatNames
  import opened SeqFacts

  /** A path as the sequence of its parts. */
  type Path = seq<string>

  datatype Option<T> = None | Some(value: T)

  /** `Path(*parts)` for sanitised parts: each part is sanitised, and the
      empty ones vanish in the join. */
  function JoinSanitised(parts: seq<string>): (r: Path)
    ensures |r| <= |parts|
    ensures forall i :: 0 <= i < |r| ==> r[i] != "" && AllAllowed(r[i])
  {
    if parts == [] then []
    else
      var s := SanitisedName(parts[|parts| - 1]);
      JoinSanitised(parts[..|parts| - 1]) + (if s == "" then [] else [s])
  }

  /** What `destination(src, dst, path)` returns, with None for the failed
      assertion that `path` lies under `src`. */
  function DestinationPath(src: Path, dst: Path, path: Path): (r: Option<Path>)
    ensures r.Some? <==> src <= path
    ensures r.Some? ==> dst <= r.value && |r.value| <= |dst| + |path| - |src|
    ensures r.Some? ==>
      forall i :: |dst| <= i < |r.value| ==> r.value[i] != "" && AllAllowed(r.value[i])
  {
    if path[..Min(|src|, |path|)] != src then None
    else Some(dst + JoinSanitised(path[|src|..]))
  }

  /** Sanitising the parts of a path is done part by part, in order. */
  lemma {:induction false} JoinSanitisedAppend(a: seq<string>, b: seq<string>)
    ensures JoinSanitised(a + b) == JoinSanitised(a) + JoinSanitised(b)
  {
    if b == [] {
      AppendEmpty(a);
      AppendEmpty(JoinSanitised(a));
    } else {
      var init := b[..|b| - 1];
      var s := SanitisedName(b[|b| - 1]);
      AppendInit(a, b);
      JoinSanitisedAppend(a, init);
      AppendAssoc(JoinSanitised(a), JoinSanitised(init), if s == "" then [] else [s]);
    }
  }

  /** Parts that are already valid, non-empty exFAT names pass through
      unchanged. */
  lemma {:induction false} JoinSanitisedClean(parts: seq<string>)
    requires forall i :: 0 <= i < |parts| ==> parts[i] != "" && ValidName(parts[i])
    ensures JoinSanitised(parts) == parts
  {
    if parts != [] {
      var init, last := parts[..|parts| - 1], parts[|parts| - 1];
      assert init + [last] == parts;
      JoinSanitisedClean(init);
      SanitiseFixpoint(last);
      assert JoinSanitised(parts) == init + [last];
    }
  }

  /** The parts of the source root play no part in the result: a path under
      `src` maps to `dst` followed by its own parts below `src`, sanitised. */
  lemma DestinationRebase(src: Path, dst: Path, rel: Path)
    ensures DestinationPath(src, dst, src + rel) == Some(dst + JoinSanitised(rel))
  {
    assert (src + rel)[..|src|] == src;
    assert (src + rel)[|src|..] == rel;
  }

  /** An entry of a walked directory under `src` is itself under `src`, and
      maps to `dst` followed by the sanitised parts of the directory below
      `src` and then the entry's own sanitised name. */
  lemma DestinationChild(src: Path, dst: Path, root: Path, name: string)
    requires src <= root
    ensures DestinationPath(src, dst, root + [name]) ==
            Some(dst + JoinSanitised(root[|src|..] + [name]))
  {
    assert (root + [name])[..|src|] == src;
    assert (root + [name])[|src|..] == root[|src|..] + [name];
  }

  /** Sanitising one more part appends its sanitised name, unless empty. */
  lemma JoinSanitisedSnoc(parts: seq<string>, name: string)
    ensures var s := SanitisedName(name);
      JoinSanitised(parts + [name]) == JoinSanitised(parts) + (if s == "" then [] else [s])
  {
    assert (parts + [name])[..|parts|] == parts;
  }

  /** A path whose parts below `src` are already valid, non-empty exFAT names
      maps to the same parts under `dst`. */
  lemma DestinationClean(src: Path, dst: Path, rel: Path)
    requires forall i :: 0 <= i < |rel| ==> rel[i] != "" && ValidName(rel[i])
    ensures DestinationPath(src, dst, src + rel) == Some(dst + rel)
  {
    JoinSanitisedClean(rel);
    DestinationRebase(src, dst, rel);
  }

  /** The path `/src/a/b.txt` under `/src` maps to `/dst/a/b.txt`. */
  lemma DestinationExample()
    ensures DestinationPath(["/", "src"], ["/", "dst"], ["/", "src", "a", "b.txt"])
         == Some(["/", "dst", "a", "b.txt"])
  {
    var src, dst, rel := ["/", "src"], ["/", "dst"], ["a", "b.txt"];
    assert src + rel == ["/", "src", "a", "b.txt"];
    assert dst + rel == ["/", "dst", "a", "b.txt"];
    assert ValidName(rel[0]) by {}
    assert ValidName(rel[1]) by {}
    DestinationClean(src, dst, rel);
  }

  /** The path `/other/x` is not under `/src`: the assertion fails. */
  lemma DestinationOutsideExample()
    ensures DestinationPath(["/", "src"], ["/", "dst"], ["/", "other", "x"]) == None
  {
    var src, other := ["/", "src"], ["/", "other", "x"];
    assert !(src <= other) by {
      assert other[1] != src[1];
    }
  }
}
