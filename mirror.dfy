/**
 * One step of the mirror in exfatmirror.py: for a directory `root` that the
 * walk of the source tree reached, with its sub-directories `dirs` and its
 * files `files`, create the missing destination directories and copy the
 * missing destination files. The file system is abstracted as the set of
 * paths that exist; the console report is the log of actions.
 *
 * The specification functions Visit, Pass and StepEffects take each entry's
 * destination as given, and Record gives what `changes` holds once a list of
 * names has been sanitised in order. The class Mirror computes the
 * destinations with `destination` and records every renaming in `changes`,
 * as the program does; its methods are proved to agree with those functions.
 */
module ExfatMirror {
  import opened ExfatNames
  import opened ExfatPaths
  import opened SeqFacts

  datatype Kind = Dir | File

  /** One line of the report: the entry's own name and its destination. */
  datatype Action =
    | Skipping(name: string, dest: Path)
    | Creating(name: string, dest: Path)
    | Copying(name: string, dest: Path)

  /** The paths that exist, and the report so far. */
  datatype Effects = Effects(existing: set<Path>, actions: seq<Action>)

  /** `name.startswith('.')`: the name begins with a dot. */
  predicate Hidden(name: string) {
    |name| > 0 && name[0] == '.'
  }

  /** A name as the walk yields it: not empty and without a separator, so
      that `Path(root, name)` has the parts of `root` followed by `name`. */
  predicate EntryName(name: string) {
    name != "" && forall i :: 0 <= i < |name| ==> name[i] != '/'
  }

  /** The destinations that the actions create or copy to. */
  function Made(acts: seq<Action>): set<Path> {
    set i | 0 <= i < |acts| && !acts[i].Skipping? :: acts[i].dest
  }

  /** No destination is created or copied to twice. */
  predicate MadeOnce(acts: seq<Action>) {
    forall i, j :: 0 <= i < j < |acts| && !acts[i].Skipping? && !acts[j].Skipping? ==>
      acts[i].dest != acts[j].dest
  }

  /** The destination of entry `name` of the walked directory `root`. */
  function ChildDest(src: Path, dst: Path, root: Path, name: string): (r: Path)
    requires src <= root
    ensures dst <= r && |r| <= |dst| + |root| - |src| + 1
    ensures forall i :: |dst| <= i < |r| ==> r[i] != "" && AllAllowed(r[i])
  {
    dst + JoinSanitised(root[|src|..] + [name])
  }

  /** The destinations of all entries of `root`, in order. */
  function Dests(src: Path, dst: Path, root: Path, names: seq<string>): (r: seq<Path>)
    requires src <= root
    ensures |r| == |names|
    ensures forall k :: 0 <= k < |names| ==> r[k] == ChildDest(src, dst, root, names[k])
  {
    if names == [] then []
    else
      var n := |names| - 1;
      Dests(src, dst, root, names[..n]) + [ChildDest(src, dst, root, names[n])]
  }

  /** The entries that are not hidden, in order. */
  function Visible(names: seq<string>): (r: seq<string>)
    ensures |r| <= |names|
    ensures forall k :: 0 <= k < |r| ==> !Hidden(r[k]) && r[k] in names
    ensures forall k :: 0 <= k < |names| && !Hidden(names[k]) ==> names[k] in r
  {
    if names == [] then []
    else
      var last := names[|names| - 1];
      Visible(names[..|names| - 1]) + (if Hidden(last) then [] else [last])
  }

  /** What one entry does, given the paths that exist: a hidden entry is
      passed over; an existing destination is reported as skipped when it is
      a directory's and passed over silently when it is a file's; otherwise
      the destination is created (a directory) or copied to (a file). The
      result holds the paths that exist afterwards and the entry's report. */
  function Visit(existing: set<Path>, kind: Kind, name: string, dest: Path): (r: Effects)
    ensures r.existing == existing + (if Hidden(name) then {} else {dest})
    ensures |r.actions| == if Hidden(name) || (kind == File && dest in existing) then 0 else 1
    ensures forall j :: 0 <= j < |r.actions| ==>
      && r.actions[j].name == name && r.actions[j].dest == dest
      && (r.actions[j].Skipping? <==> dest in existing)
      && (r.actions[j].Copying? <==> kind == File)
    ensures Made(r.actions) == r.existing - existing
  {
    if Hidden(name) then Effects(existing, [])
    else if dest in existing then
      Effects(existing, if kind == Dir then [Skipping(name, dest)] else [])
    else if kind == Dir then
      assert [Creating(name, dest)][0].Creating?;
      Effects(existing + {dest}, [Creating(name, dest)])
    else
      assert kind == File && [Copying(name, dest)][0].Copying?;
      Effects(existing + {dest}, [Copying(name, dest)])
  }

  /** One of the two loops of the step: the entries of one kind, in order,
      starting from the paths that exist; the result holds the paths that
      exist afterwards and the loop's report. */
  function Pass(existing: set<Path>, kind: Kind, names: seq<string>, dests: seq<Path>): (r: Effects)
    requires |names| == |dests|
    ensures existing <= r.existing
    ensures |r.actions| <= |names|
  {
    if names == [] then Effects(existing, [])
    else
      var n := |names| - 1;
      var e := Pass(existing, kind, names[..n], dests[..n]);
      var v := Visit(e.existing, kind, names[n], dests[n]);
      Effects(v.existing, e.actions + v.actions)
  }

  /** A pass makes only destinations that did not exist, each at most once,
      and afterwards they exist; it never reports a hidden entry; a directory
      pass creates or skips and a file pass only copies; and every reported
      entry is one of the pass's entries, with its own destination. */
  lemma {:induction false} PassSpec(existing: set<Path>, kind: Kind, names: seq<string>, dests: seq<Path>)
    requires |names| == |dests|
    ensures var r := Pass(existing, kind, names, dests);
      && r.existing == existing + Made(r.actions)
      && Made(r.actions) !! existing
      && MadeOnce(r.actions)
      && (forall j :: 0 <= j < |r.actions| ==>
            !Hidden(r.actions[j].name) && (r.actions[j].Copying? <==> kind == File))
      && (forall j :: 0 <= j < |r.actions| ==>
            exists k :: 0 <= k < |names| && names[k] == r.actions[j].name && dests[k] == r.actions[j].dest)
  {
    if names != [] {
      var n := |names| - 1;
      PassSpec(existing, kind, names[..n], dests[..n]);
      var e := Pass(existing, kind, names[..n], dests[..n]);
      var v := Visit(e.existing, kind, names[n], dests[n]);
      var acts := e.actions + v.actions;
      MadeAppend(e.actions, v.actions);
      assert v.actions == [] || v.actions == [v.actions[0]];
      forall j | 0 <= j < |acts|
        ensures !Hidden(acts[j].name) && (acts[j].Copying? <==> kind == File)
        ensures exists k :: 0 <= k < |names| && names[k] == acts[j].name && dests[k] == acts[j].dest
      {
        if j < |e.actions| {
          assert acts[j] == e.actions[j];
          var k :| 0 <= k < n && names[..n][k] == acts[j].name && dests[..n][k] == acts[j].dest;
          assert names[k] == acts[j].name && dests[k] == acts[j].dest;
        } else {
          assert acts[j] == v.actions[0];
          assert names[n] == acts[j].name && dests[n] == acts[j].dest;
        }
      }
    }
  }

  /** Both loops of the step: directories first, then files. */
  function StepEffects(existing: set<Path>, dirs: seq<string>, dirDests: seq<Path>,
                       files: seq<string>, fileDests: seq<Path>): (r: Effects)
    requires |dirs| == |dirDests| && |files| == |fileDests|
    ensures existing <= r.existing
    ensures |r.actions| <= |dirs| + |files|
  {
    var a := Pass(existing, Dir, dirs, dirDests);
    var b := Pass(a.existing, File, files, fileDests);
    Effects(b.existing, a.actions + b.actions)
  }

  /** A step makes only destinations that did not exist, each at most once,
      and afterwards they exist; it never reports a hidden entry; and it
      reports all its directories before its first copy. */
  lemma StepSpec(existing: set<Path>, dirs: seq<string>, dirDests: seq<Path>,
                 files: seq<string>, fileDests: seq<Path>)
    requires |dirs| == |dirDests| && |files| == |fileDests|
    ensures var r := StepEffects(existing, dirs, dirDests, files, fileDests);
      && r.existing == existing + Made(r.actions)
      && Made(r.actions) !! existing
      && MadeOnce(r.actions)
      && (forall j :: 0 <= j < |r.actions| ==> !Hidden(r.actions[j].name))
      && (forall i, j :: 0 <= i < j < |r.actions| && r.actions[i].Copying? ==> r.actions[j].Copying?)
  {
    var a := Pass(existing, Dir, dirs, dirDests);
    var b := Pass(a.existing, File, files, fileDests);
    PassSpec(existing, Dir, dirs, dirDests);
    PassSpec(a.existing, File, files, fileDests);
    MadeAppend(a.actions, b.actions);
    var acts := a.actions + b.actions;
    assert forall j :: 0 <= j < |a.actions| ==> acts[j] == a.actions[j];
    assert forall j :: |a.actions| <= j < |acts| ==> acts[j] == b.actions[j - |a.actions|];
  }

  /** Over a whole run of steps, no destination is made twice: a step that
      starts from a report whose destinations were each made once and all
      exist keeps both true of the longer report. */
  lemma StepKeepsMadeOnce(existing: set<Path>, log: seq<Action>, dirs: seq<string>, dirDests: seq<Path>,
                          files: seq<string>, fileDests: seq<Path>)
    requires |dirs| == |dirDests| && |files| == |fileDests|
    requires MadeOnce(log) && Made(log) <= existing
    ensures var r := StepEffects(existing, dirs, dirDests, files, fileDests);
      MadeOnce(log + r.actions) && Made(log + r.actions) <= r.existing
  {
    StepSpec(existing, dirs, dirDests, files, fileDests);
    MadeAppend(log, StepEffects(existing, dirs, dirDests, files, fileDests).actions);
  }

  /** The two loops of a step, run one after the other on the object's
      state, have the effects of StepEffects. */
  lemma StepComposes(existing: set<Path>, log: seq<Action>, dirs: seq<string>, dirDests: seq<Path>,
                     files: seq<string>, fileDests: seq<Path>)
    requires |dirs| == |dirDests| && |files| == |fileDests|
    requires MadeOnce(log) && Made(log) <= existing
    ensures var a := Pass(existing, Dir, dirs, dirDests);
      var b := Pass(a.existing, File, files, fileDests);
      var e := StepEffects(existing, dirs, dirDests, files, fileDests);
      && b.existing == e.existing
      && (log + a.actions) + b.actions == log + e.actions
      && MadeOnce(log + e.actions) && Made(log + e.actions) <= e.existing
  {
    StepKeepsMadeOnce(existing, log, dirs, dirDests, files, fileDests);
  }

  /** The destinations made by two reports in a row; they are made once each
      when each report makes them once and the two make different ones. */
  lemma MadeAppend(a: seq<Action>, b: seq<Action>)
    ensures Made(a + b) == Made(a) + Made(b)
    ensures MadeOnce(a) && MadeOnce(b) && Made(a) !! Made(b) ==> MadeOnce(a + b)
  {
    var ab := a + b;
    forall p | p in Made(ab) ensures p in Made(a) + Made(b) {
      var i :| 0 <= i < |ab| && !ab[i].Skipping? && ab[i].dest == p;
      if i >= |a| {
        assert b[i - |a|] == ab[i];
      }
    }
    forall p | p in Made(a) ensures p in Made(ab) {
      var i :| 0 <= i < |a| && !a[i].Skipping? && a[i].dest == p;
      assert ab[i] == a[i];
    }
    forall p | p in Made(b) ensures p in Made(ab) {
      var i :| 0 <= i < |b| && !b[i].Skipping? && b[i].dest == p;
      assert ab[|a| + i] == b[i];
    }
    if MadeOnce(a) && MadeOnce(b) && Made(a) !! Made(b) {
      forall i, j | 0 <= i < j < |ab| && !ab[i].Skipping? && !ab[j].Skipping?
        ensures ab[i].dest != ab[j].dest
      {
        if i >= |a| {
          assert ab[i] == b[i - |a|] && ab[j] == b[j - |a|];
        } else if j >= |a| {
          assert ab[i].dest in Made(a);
          assert ab[j] == b[j - |a|];
          assert ab[j].dest in Made(b);
        }
      }
    }
  }

  /** Every entry that is not hidden has an existing destination after its
      pass: either it existed already or the pass made it. */
  lemma {:induction false} PassCovers(existing: set<Path>, kind: Kind, names: seq<string>, dests: seq<Path>)
    requires |names| == |dests|
    ensures existing <= Pass(existing, kind, names, dests).existing
    ensures forall k :: 0 <= k < |names| && !Hidden(names[k]) ==>
      dests[k] in Pass(existing, kind, names, dests).existing
  {
    if names != [] {
      var n := |names| - 1;
      PassCovers(existing, kind, names[..n], dests[..n]);
      assert forall k :: 0 <= k < n ==> names[..n][k] == names[k] && dests[..n][k] == dests[k];
    }
  }

  /** A pass over entries whose destinations all exist makes nothing: a
      directory pass reports each visible entry as skipped, in order, and a
      file pass reports nothing. */
  lemma {:induction false} PassSettled(existing: set<Path>, kind: Kind, names: seq<string>, dests: seq<Path>)
    requires |names| == |dests|
    requires forall k :: 0 <= k < |names| && !Hidden(names[k]) ==> dests[k] in existing
    ensures var r := Pass(existing, kind, names, dests);
      && r.existing == existing
      && (forall j :: 0 <= j < |r.actions| ==> r.actions[j].Skipping?)
      && (kind == Dir ==>
            |r.actions| == |Visible(names)| &&
            forall j :: 0 <= j < |r.actions| ==> r.actions[j].name == Visible(names)[j])
      && (kind == File ==> r.actions == [])
  {
    if names != [] {
      var n := |names| - 1;
      assert forall k :: 0 <= k < n ==> names[..n][k] == names[k] && dests[..n][k] == dests[k];
      PassSettled(existing, kind, names[..n], dests[..n]);
    }
  }

  /** The entries that are not hidden are picked out one by one, in order. */
  lemma {:induction false} VisibleAppend(a: seq<string>, b: seq<string>)
    ensures Visible(a + b) == Visible(a) + Visible(b)
  {
    if b == [] {
      AppendEmpty(a);
      AppendEmpty(Visible(a));
    } else {
      var last := b[|b| - 1];
      AppendInit(a, b);
      VisibleAppend(a, b[..|b| - 1]);
      AppendAssoc(Visible(a), Visible(b[..|b| - 1]), if Hidden(last) then [] else [last]);
    }
  }

  /** A directory pass reports every visible entry, in order, and nothing
      else: each one is either created or, when its destination exists,
      reported as skipped. */
  lemma {:induction false} PassReportsDirs(existing: set<Path>, names: seq<string>, dests: seq<Path>)
    requires |names| == |dests|
    ensures var r := Pass(existing, Dir, names, dests);
      |r.actions| == |Visible(names)| &&
      forall j :: 0 <= j < |r.actions| ==> r.actions[j].name == Visible(names)[j]
  {
    if names != [] {
      var n := |names| - 1;
      PassReportsDirs(existing, names[..n], dests[..n]);
      var e := Pass(existing, Dir, names[..n], dests[..n]);
      var v := Visit(e.existing, Dir, names[n], dests[n]);
      var acts := e.actions + v.actions;
      assert Visible(names) == Visible(names[..n]) + (if Hidden(names[n]) then [] else [names[n]]);
      forall j | 0 <= j < |acts| ensures acts[j].name == Visible(names)[j] {
        if j < |e.actions| {
          assert acts[j] == e.actions[j];
        } else {
          assert acts[j] == v.actions[0];
        }
      }
    }
  }

  /** A destination that a pass has reported exists afterwards, and a later
      entry of the pass with the same destination is only reported as
      skipped: two directories that sanitise alike are created once. */
  lemma {:induction false} PassLaterSkips(existing: set<Path>, kind: Kind, names: seq<string>, dests: seq<Path>)
    requires |names| == |dests|
    ensures var r := Pass(existing, kind, names, dests);
      AllExist(r.actions, r.existing) && RepeatsSkipped(r.actions)
  {
    if names != [] {
      var n := |names| - 1;
      PassLaterSkips(existing, kind, names[..n], dests[..n]);
      var e := Pass(existing, kind, names[..n], dests[..n]);
      var v := Visit(e.existing, kind, names[n], dests[n]);
      var acts := e.actions + v.actions;
      assert e.existing <= v.existing;
      forall j | 0 <= j < |acts| ensures acts[j].dest in v.existing {
        if j < |e.actions| {
          assert acts[j] == e.actions[j];
          assert e.actions[j].dest in e.existing;
        } else {
          assert acts[j] == v.actions[0];
        }
      }
      forall i, j | 0 <= i < j < |acts| && acts[i].dest == acts[j].dest
        ensures acts[j].Skipping?
      {
        assert acts[i] == e.actions[i];
        assert e.actions[i].dest in e.existing;
        if j < |e.actions| {
          assert acts[j] == e.actions[j];
        } else {
          assert acts[j] == v.actions[0];
          assert v.actions[0].dest == dests[n];
        }
      }
    }
  }

  /** Every destination in the report exists. */
  predicate AllExist(acts: seq<Action>, existing: set<Path>) {
    forall j :: 0 <= j < |acts| ==> acts[j].dest in existing
  }

  /** A destination that the report names again is only skipped there. */
  predicate RepeatsSkipped(acts: seq<Action>) {
    forall i, j :: 0 <= i < j < |acts| && acts[i].dest == acts[j].dest ==> acts[j].Skipping?
  }

  /** One entry keeps the report's invariant: what it makes did not exist,
      so nothing is made twice, and all that was made exists. */
  lemma VisitKeepsMadeOnce(existing: set<Path>, log: seq<Action>, kind: Kind, name: string, dest: Path)
    requires MadeOnce(log) && Made(log) <= existing
    ensures var v := Visit(existing, kind, name, dest);
      MadeOnce(log + v.actions) && Made(log + v.actions) <= v.existing
  {
    var v := Visit(existing, kind, name, dest);
    assert MadeOnce(v.actions);
    MadeAppend(log, v.actions);
  }

  /** `d` and `f.txt` at the top of the source tree, mirrored into an empty
      destination: the directory is created and the file copied, in that
      order, at the same names below `dst`. */
  lemma StepExample()
    ensures var src, dst := ["/", "src"], ["/", "dst"];
      var r := StepEffects({dst}, ["d"], Dests(src, dst, src, ["d"]),
                           ["f.txt"], Dests(src, dst, src, ["f.txt"]));
      && r.actions == [Creating("d", dst + ["d"]), Copying("f.txt", dst + ["f.txt"])]
      && r.existing == {dst, dst + ["d"], dst + ["f.txt"]}
  {
    var dst := ["/", "dst"];
    assert "d"[0] != '.' && ValidName("d");
    assert "f.txt"[0] != '.' && ValidName("f.txt");
    assert |dst + ["d"]| != |dst| && |dst + ["f.txt"]| != |dst|;
    assert (dst + ["d"])[2] != (dst + ["f.txt"])[2];
    StepTopEntries(["/", "src"], dst, "d", "f.txt", {dst});
  }

  /** A step at the top of the source tree over one directory and one file,
      both with valid names and missing destinations, creates the one and
      then copies the other, under their own names below `dst`. */
  lemma StepTopEntries(src: Path, dst: Path, d: string, f: string, existing: set<Path>)
    requires d != "" && d[0] != '.' && ValidName(d) && dst + [d] !in existing
    requires f != "" && f[0] != '.' && ValidName(f) && dst + [f] !in existing
    requires dst + [d] != dst + [f]
    ensures var r := StepEffects(existing, [d], Dests(src, dst, src, [d]),
                                 [f], Dests(src, dst, src, [f]));
      && r.actions == [Creating(d, dst + [d]), Copying(f, dst + [f])]
      && r.existing == existing + {dst + [d], dst + [f]}
  {
    TopDests(src, dst, d);
    TopDests(src, dst, f);
    StepOneEach(existing, d, dst + [d], f, dst + [f]);
  }

  /** A step over one directory and one file whose destinations are
      missing and different creates the one, then copies the other. */
  lemma StepOneEach(existing: set<Path>, d: string, dd: Path, f: string, fd: Path)
    requires !Hidden(d) && !Hidden(f) && dd !in existing && fd !in existing && dd != fd
    ensures var r := StepEffects(existing, [d], [dd], [f], [fd]);
      r.actions == [Creating(d, dd), Copying(f, fd)] && r.existing == existing + {dd, fd}
  {
    assert [d][..0] == [] && [dd][..0] == [];
    assert Pass(existing, Dir, [], []) == Effects(existing, []);
    assert Visit(existing, Dir, d, dd) == Effects(existing + {dd}, [Creating(d, dd)]);
    var a := Pass(existing, Dir, [d], [dd]);
    assert a == Effects(existing + {dd}, [] + [Creating(d, dd)]);
    assert [f][..0] == [] && [fd][..0] == [];
    assert Pass(a.existing, File, [], []) == Effects(a.existing, []);
    assert Visit(a.existing, File, f, fd) == Effects(existing + {dd, fd}, [Copying(f, fd)]);
    var b := Pass(a.existing, File, [f], [fd]);
    assert b == Effects(existing + {dd, fd}, [] + [Copying(f, fd)]);
  }

  /** The destinations of an entry at the top of the source tree whose name
      is a valid exFAT name: its own name below `dst`. */
  lemma TopDests(src: Path, dst: Path, name: string)
    requires name != "" && ValidName(name)
    ensures Dests(src, dst, src, [name]) == [dst + [name]]
  {
    CleanDest(src, dst, name);
    assert [name][..0] == [];
  }

  /** An entry at the top of the source tree whose name is already a valid
      exFAT name keeps that name below `dst`. */
  lemma CleanDest(src: Path, dst: Path, name: string)
    requires name != "" && ValidName(name)
    ensures ChildDest(src, dst, src, name) == dst + [name]
  {
    assert src[|src|..] + [name] == [name];
    SanitiseFixpoint(name);
    JoinSanitisedSnoc([], name);
  }

  /** Running a step a second time, over what the first run left, makes
      nothing: the destinations all exist, and only directories are
      reported, as skipped. */
  lemma StepRerun(existing: set<Path>, dirs: seq<string>, dirDests: seq<Path>,
                  files: seq<string>, fileDests: seq<Path>)
    requires |dirs| == |dirDests| && |files| == |fileDests|
    ensures var r1 := StepEffects(existing, dirs, dirDests, files, fileDests);
      var r2 := StepEffects(r1.existing, dirs, dirDests, files, fileDests);
      && r2.existing == r1.existing
      && r2.actions == Pass(r1.existing, Dir, dirs, dirDests).actions
      && (forall j :: 0 <= j < |r2.actions| ==> r2.actions[j].Skipping?)
  {
    var a := Pass(existing, Dir, dirs, dirDests);
    var b := Pass(a.existing, File, files, fileDests);
    PassCovers(existing, Dir, dirs, dirDests);
    PassCovers(a.existing, File, files, fileDests);
    var ex := b.existing;
    PassSettled(ex, Dir, dirs, dirDests);
    var a2 := Pass(ex, Dir, dirs, dirDests);
    PassSettled(a2.existing, File, files, fileDests);
    assert a2.actions + [] == a2.actions;
  }

  /** An entry whose name has no character exFAT accepts, such as "???",
      gets the destination of its own directory. Once that exists, a
      directory of that name is reported as skipped and a file of that name
      is silently not copied. */
  lemma EmptiedEntry(src: Path, dst: Path, root: Path, kind: Kind, name: string, existing: set<Path>)
    requires src <= root
    requires forall i :: 0 <= i < |name| ==> !Allowed(name[i])
    ensures DestinationPath(src, dst, root).Some?
    ensures ChildDest(src, dst, root, name) == DestinationPath(src, dst, root).value
    ensures ChildDest(src, dst, root, name) in existing ==>
      Visit(existing, kind, name, ChildDest(src, dst, root, name)) ==
      Effects(existing, if kind == Dir then [Skipping(name, ChildDest(src, dst, root, name))] else [])
  {
    EmptiedDest(src, dst, root, name);
    RootDestination(src, dst, root);
    assert !Hidden(name) by {
      assert name == [] || !Allowed(name[0]);
    }
  }

  lemma EmptiedDest(src: Path, dst: Path, root: Path, name: string)
    requires src <= root
    requires forall i :: 0 <= i < |name| ==> !Allowed(name[i])
    ensures ChildDest(src, dst, root, name) == dst + JoinSanitised(root[|src|..])
  {
    var rel := root[|src|..];
    SanitiseNothingAllowed(name);
    JoinSanitisedSnoc(rel, name);
    AppendEmpty(JoinSanitised(rel));
  }

  /** The directory being walked has its own destination. */
  lemma RootDestination(src: Path, dst: Path, root: Path)
    requires src <= root
    ensures DestinationPath(src, dst, root) == Some(dst + JoinSanitised(root[|src|..]))
  {
    assert root[..|src|] == src;
  }

  /** The distinct parts of a path. */
  function Parts(s: seq<string>): set<string> {
    set x | x in s
  }

  /** `changes` after sanitising `names` in order, starting from `m`: each
      name that sanitising alters is mapped to what it becomes. */
  function Record(m: map<string, string>, names: seq<string>): (r: map<string, string>)
    ensures m.Keys <= r.Keys <= m.Keys + Parts(names)
  {
    if names == [] then m
    else
      var last := names[|names| - 1];
      var ret := SanitisedName(last);
      var r := Record(m, names[..|names| - 1]);
      if last != ret then r[last := ret] else r
  }

  /** The renamings that `rename` makes of `names`: every name it alters,
      with what it becomes. */
  function Renamings(rename: string -> string, names: set<string>): map<string, string> {
    map s | s in names && rename(s) != s :: rename(s)
  }

  /** The renamings that sanitising each of `names` makes. */
  function Recorded(names: set<string>): map<string, string> {
    Renamings(SanitisedName, names)
  }

  /** Adding the renamings of two groups of names one after the other adds
      those of their union: a name is always renamed the same. */
  lemma RenamingsAdd(rename: string -> string, m: map<string, string>, a: set<string>, b: set<string>)
    ensures (m + Renamings(rename, a)) + Renamings(rename, b) == m + Renamings(rename, a + b)
  {
    var l, r := (m + Renamings(rename, a)) + Renamings(rename, b), m + Renamings(rename, a + b);
    assert l.Keys == r.Keys;
  }

  /** Recording one renaming adds the renamings of that one name. */
  lemma RenamingsOne(rename: string -> string, m: map<string, string>, name: string)
    ensures var ret := rename(name);
      (if name != ret then m[name := ret] else m) == m + Renamings(rename, {name})
  {
    var ret := rename(name);
    var l, r := (if name != ret then m[name := ret] else m), m + Renamings(rename, {name});
    assert l.Keys == r.Keys;
  }

  /** Sanitising one more name. */
  lemma RecordSnoc(m: map<string, string>, names: seq<string>, name: string)
    ensures var ret := SanitisedName(name);
      var r := Record(m, names);
      Record(m, names + [name]) == if name != ret then r[name := ret] else r
  {
    var longer := names + [name];
    SnocTake(names, name);
    assert longer[|longer| - 1] == name;
  }

  /** Sanitising two lists of names in a row. */
  lemma {:induction false} RecordAppend(m: map<string, string>, a: seq<string>, b: seq<string>)
    ensures Record(m, a + b) == Record(Record(m, a), b)
  {
    if b == [] {
      AppendEmpty(a);
    } else {
      AppendInit(a, b);
      RecordAppend(m, a, b[..|b| - 1]);
    }
  }

  /** Whatever the order of the calls and however often a name recurs,
      `changes` ends up holding the renaming of every distinct name that
      sanitising alters, and nothing else is added. */
  lemma {:induction false} RecordSet(m: map<string, string>, names: seq<string>)
    ensures Record(m, names) == m + Recorded(Parts(names))
  {
    if names == [] {
      assert Recorded(Parts(names)) == map[];
    } else {
      var init, last := names[..|names| - 1], names[|names| - 1];
      InitLast(names);
      RecordSet(m, init);
      RenamingsOne(SanitisedName, Record(m, init), last);
      RenamingsAdd(SanitisedName, m, Parts(init), {last});
      PartsAppend(init, [last]);
      assert Parts([last]) == {last};
    }
  }

  lemma PartsAppend(a: seq<string>, b: seq<string>)
    ensures Parts(a + b) == Parts(a) + Parts(b)
  {
  }

  /** The names `step` sanitises for the entries `names` of a directory
      whose parts below the source root are `base`: for each entry that is
      not hidden, the parts of `base`, then the entry's name. */
  function EntryParts(base: seq<string>, names: seq<string>): seq<string> {
    if names == [] then []
    else
      var last := names[|names| - 1];
      EntryParts(base, names[..|names| - 1]) + (if Hidden(last) then [] else base + [last])
  }

  /** The renamings recorded once the loop over `names` has also seen
      entry `i`. */
  lemma RecordEntry(m: map<string, string>, base: seq<string>, names: seq<string>, i: int)
    requires 0 <= i < |names|
    ensures Hidden(names[i]) ==>
      Record(m, EntryParts(base, names[..i + 1])) == Record(m, EntryParts(base, names[..i]))
    ensures !Hidden(names[i]) ==>
      Record(m, EntryParts(base, names[..i + 1])) ==
      Record(Record(m, EntryParts(base, names[..i])), base + [names[i]])
  {
    assert names[..i + 1][..i] == names[..i];
    var before := EntryParts(base, names[..i]);
    if Hidden(names[i]) {
      assert EntryParts(base, names[..i + 1]) == before + [];
      assert before + [] == before;
    } else {
      assert EntryParts(base, names[..i + 1]) == before + (base + [names[i]]);
      RecordAppend(m, before, base + [names[i]]);
    }
  }

  /** The distinct names sanitised for the entries of a directory: those of
      its visible entries, and the parts of the directory when there is one. */
  lemma {:induction false} EntryPartsParts(base: seq<string>, names: seq<string>)
    ensures Parts(EntryParts(base, names)) ==
            (if Visible(names) == [] then {} else Parts(base)) + Parts(Visible(names))
  {
    if names != [] {
      var init, last := names[..|names| - 1], names[|names| - 1];
      EntryPartsParts(base, init);
      PartsAppend(EntryParts(base, init), if Hidden(last) then [] else base + [last]);
      PartsAppend(Visible(init), if Hidden(last) then [] else [last]);
      PartsAppend(base, [last]);
    }
  }

  /** The renamings a whole step records: the parts of the walked directory
      below the source root (recorded when `step` computes its destination),
      then those sanitised for its directories and for its files. */
  lemma StepRecords(m: map<string, string>, base: seq<string>, dirs: seq<string>, files: seq<string>)
    ensures Record(m, base + EntryParts(base, dirs) + EntryParts(base, files)) ==
            m + Recorded(Parts(base) + Parts(Visible(dirs)) + Parts(Visible(files)))
  {
    var all := base + EntryParts(base, dirs) + EntryParts(base, files);
    RecordSet(m, all);
    PartsAppend(base + EntryParts(base, dirs), EntryParts(base, files));
    PartsAppend(base, EntryParts(base, dirs));
    EntryPartsParts(base, dirs);
    EntryPartsParts(base, files);
    assert Parts(all) == Parts(base) + Parts(Visible(dirs)) + Parts(Visible(files));
  }

  /** One more part of `destination`'s loop over the parts `rel` below the
      source root: its sanitised name joins the path, unless empty, and the
      part joins those sanitised so far. */
  lemma DestinationStep(dst: Path, rel: Path, k: int, parts: Path, s: string)
    requires 0 <= k < |rel|
    requires parts == dst + JoinSanitised(rel[..k])
    requires s == SanitisedName(rel[k])
    ensures rel[..k + 1] == rel[..k] + [rel[k]]
    ensures s != "" ==> parts + [s] == dst + JoinSanitised(rel[..k + 1])
    ensures s == "" ==> parts == dst + JoinSanitised(rel[..k + 1])
  {
    var done := rel[..k];
    TakeSnoc(rel, k);
    JoinSanitisedSnoc(done, rel[k]);
    AppendAssoc(dst, JoinSanitised(done), [s]);
    AppendEmpty(JoinSanitised(done));
  }

  /** One more entry of a pass: the pass over the longer prefix is the pass
      over the shorter one followed by a visit of the entry. */
  lemma PassSnoc(existing: set<Path>, kind: Kind, names: seq<string>, dests: seq<Path>, i: int)
    requires |names| == |dests| && 0 <= i < |names|
    ensures var e := Pass(existing, kind, names[..i], dests[..i]);
      var v := Visit(e.existing, kind, names[i], dests[i]);
      Pass(existing, kind, names[..i + 1], dests[..i + 1]) == Effects(v.existing, e.actions + v.actions)
    ensures Visible(names[..i + 1]) == Visible(names[..i]) + (if Hidden(names[i]) then [] else [names[i]])
  {
    TakeTake(names, i, i + 1);
    TakeTake(dests, i, i + 1);
  }

  /** One more entry of a pass over the entries of `root`, with their own
      destinations. */
  lemma PassEntry(existing: set<Path>, kind: Kind, src: Path, dst: Path, root: Path, names: seq<string>, i: int)
    requires src <= root && 0 <= i < |names|
    ensures var e := Pass(existing, kind, names[..i], Dests(src, dst, root, names[..i]));
      var v := Visit(e.existing, kind, names[i], ChildDest(src, dst, root, names[i]));
      Pass(existing, kind, names[..i + 1], Dests(src, dst, root, names[..i + 1])) ==
      Effects(v.existing, e.actions + v.actions)
  {
    var longer, shorter := names[..i + 1], names[..i];
    TakeTake(names, i, i + 1);
    var ds := Dests(src, dst, root, longer);
    assert ds == Dests(src, dst, root, shorter) + [ChildDest(src, dst, root, names[i])];
    SnocTake(Dests(src, dst, root, shorter), ChildDest(src, dst, root, names[i]));
    PassSnoc(existing, kind, longer, ds, i);
    TakeAll(longer);
    TakeAll(ds);
  }

  /** The entry `name` of `root` is under `src` when `root` is, and
      `destination` gives it its place below `dst`; the parts it sanitises
      are those of `root` below `src` and the entry's name. */
  lemma ChildDestination(src: Path, dst: Path, root: Path, name: string)
    requires src <= root
    ensures src <= root + [name]
    ensures DestinationPath(src, dst, root + [name]) == Some(ChildDest(src, dst, root, name))
    ensures (root + [name])[|src|..] == root[|src|..] + [name]
  {
    DropSnoc(root, name, |src|);
    DestinationChild(src, dst, root, name);
  }

  /** The running program: the renamings recorded so far (the global
      `changes`), the paths that exist, and the report printed so far. */
  class Mirror {
    var changes: map<string, string>
    var existing: set<Path>
    var log: seq<Action>

    /** Nothing in the report was made twice, and all of it exists. */
    ghost predicate Valid()
      reads this`log, this`existing
    {
      MadeOnce(log) && Made(log) <= existing
    }

    constructor (existing: set<Path>)
      ensures Valid()
      ensures this.existing == existing && changes == map[] && log == []
    {
      this.existing := existing;
      changes := map[];
      log := [];
    }

    /** `sanitise`: the sanitised name, recorded in `changes` when it
        differs from the name. */
    method Sanitise(name: string) returns (ret: string)
      modifies this`changes
      ensures ret == SanitisedName(name)
      ensures changes == if name != ret then old(changes)[name := ret] else old(changes)
    {
      ret := SanitisedName(name);
      if name != ret {
        changes := changes[name := ret];
      }
    }

    /** `destination`: None when `path` is not under `src` (the assertion
        fails before anything is sanitised); otherwise the parts below `src`
        are sanitised in order, each renaming is recorded, and the result is
        DestinationPath's. */
    method Destination(src: Path, dst: Path, path: Path) returns (r: Option<Path>)
      modifies this`changes
      ensures r == DestinationPath(src, dst, path)
      ensures changes == if r.Some? then Record(old(changes), path[|src|..]) else old(changes)
    {
      if path[..Min(|src|, |path|)] != src {
        return None;
      }
      var rel := path[|src|..];
      var parts := dst;
      TakeNone(rel);
      for k := 0 to |rel|
        invariant parts == dst + JoinSanitised(rel[..k])
        invariant changes == Record(old(changes), rel[..k])
      {
        var name := rel[k];
        RecordSnoc(old(changes), rel[..k], name);
        var s := Sanitise(name);
        DestinationStep(dst, rel, k, parts, s);
        if s != "" {
          parts := parts + [s];
        }
      }
      TakeAll(rel);
      r := Some(parts);
    }

    /** One pass of a loop of `step`: the entry `name` of `root`, which is
        under `src`. A hidden entry changes nothing; otherwise its
        destination is computed, which records the renamings of the parts
        of `root` below `src` and of `name`, and the entry has the effect
        that Visit gives it. */
    method Enter(src: Path, dst: Path, root: Path, kind: Kind, name: string)
      requires src <= root
      requires Valid()
      modifies this
      ensures Valid()
      ensures var v := Visit(old(existing), kind, name, ChildDest(src, dst, root, name));
        existing == v.existing && log == old(log) + v.actions
      ensures changes == if Hidden(name) then old(changes)
                         else Record(old(changes), root[|src|..] + [name])
    {
      if Hidden(name) {
        return;
      }
      var dest := EntryDestination(src, dst, root, name);
      Place(kind, name, dest);
    }

    /** `destination(src, dst, Path(root, name))` for an entry of `root`:
        the entry's destination, recording the renamings of the parts of
        `root` below `src` and then of `name`. */
    method EntryDestination(src: Path, dst: Path, root: Path, name: string) returns (dest: Path)
      requires src <= root
      modifies this`changes
      ensures dest == ChildDest(src, dst, root, name)
      ensures changes == Record(old(changes), root[|src|..] + [name])
    {
      ChildDestination(src, dst, root, name);
      var r := Destination(src, dst, root + [name]);
      dest := r.value;
    }

    /** The rest of a loop iteration, once the destination `dest` of the
        visible entry `name` is known: an existing destination is reported
        as skipped for a directory and passed over for a file; a missing one
        is created or copied to, and reported. */
    method Place(kind: Kind, name: string, dest: Path)
      requires !Hidden(name) && Valid()
      modifies this`existing, this`log
      ensures Valid()
      ensures var v := Visit(old(existing), kind, name, dest);
        existing == v.existing && log == old(log) + v.actions
    {
      VisitKeepsMadeOnce(existing, log, kind, name, dest);
      if dest in existing {
        if kind == Dir {
          log := log + [Skipping(name, dest)];
        }
        return;
      }
      log := log + [if kind == Dir then Creating(name, dest) else Copying(name, dest)];
      existing := existing + {dest};
    }

    /** One of the two loops of `step`: the entries `names` of `root`, of
        one kind, in order, with the effects of Pass on their destinations. */
    method VisitEntries(src: Path, dst: Path, root: Path, kind: Kind, names: seq<string>)
      requires src <= root
      requires Valid()
      modifies this
      ensures Valid()
      ensures var p := Pass(old(existing), kind, names, Dests(src, dst, root, names));
        existing == p.existing && log == old(log) + p.actions
      ensures changes == Record(old(changes), EntryParts(root[|src|..], names))
    {
      ghost var base := root[|src|..];
      ghost var ex0, log0, changes0 := existing, log, changes;
      for i := 0 to |names|
        invariant existing == Pass(ex0, kind, names[..i], Dests(src, dst, root, names[..i])).existing
        invariant log == log0 + Pass(ex0, kind, names[..i], Dests(src, dst, root, names[..i])).actions
        invariant changes == Record(changes0, EntryParts(base, names[..i]))
        invariant Valid()
      {
        ghost var e := Pass(ex0, kind, names[..i], Dests(src, dst, root, names[..i]));
        ghost var v := Visit(e.existing, kind, names[i], ChildDest(src, dst, root, names[i]));
        PassEntry(ex0, kind, src, dst, root, names, i);
        RecordEntry(changes0, base, names, i);
        AppendAssoc(log0, e.actions, v.actions);
        Enter(src, dst, root, kind, names[i]);
      }
      assert names[..|names|] == names;
    }

    /** `step` for one directory `root` of the walk, with the names of its
        sub-directories and files in the order the walk lists them. The
        step fails, changing nothing, when `root` is not under `src`;
        otherwise it has the effects of StepEffects on the destinations of
        its entries, and records the renamings of the parts of `root` below
        `src` and of every visible entry. */
    method Step(src: Path, dst: Path, root: Path, dirs: seq<string>, files: seq<string>)
      returns (ok: bool)
      requires Valid()
      requires forall k :: 0 <= k < |dirs| ==> EntryName(dirs[k])
      requires forall k :: 0 <= k < |files| ==> EntryName(files[k])
      modifies this
      ensures Valid()
      ensures ok <==> src <= root
      ensures !ok ==> changes == old(changes) && existing == old(existing) && log == old(log)
      ensures ok ==>
        var e := StepEffects(old(existing), dirs, Dests(src, dst, root, dirs),
                             files, Dests(src, dst, root, files));
        existing == e.existing && log == old(log) + e.actions &&
        changes == old(changes) + Recorded(Parts(root[|src|..]) + Parts(Visible(dirs)) + Parts(Visible(files)))
    {
      var rootDest := Destination(src, dst, root);
      if rootDest.None? {
        return false;
      }
      ok := true;
      ghost var base := root[|src|..];
      ghost var ex0, log0 := existing, log;
      VisitEntries(src, dst, root, Dir, dirs);
      VisitEntries(src, dst, root, File, files);
      RecordAppend(old(changes), base, EntryParts(base, dirs));
      RecordAppend(old(changes), base + EntryParts(base, dirs), EntryParts(base, files));
      StepRecords(old(changes), base, dirs, files);
      StepComposes(ex0, log0, dirs, Dests(src, dst, root, dirs), files, Dests(src, dst, root, files));
    }
  }
}
