/** Scenario discovery: the scenario directories directly under a simulation run directory. */
module Discovery {

  /** One child of a directory, as `Path.iterdir()` yields it. */
  datatype DirEntry = DirEntry(name: string, isFile: bool)

  /** The names of the children that are not files, in enumeration order. */
  function Subdirs(children: seq<DirEntry>): seq<string> {
    if children == [] then []
    else
      var last := children[|children| - 1];
      Subdirs(children[..|children| - 1]) + (if last.isFile then [] else [last.name])
  }

  /**
   * get_scenario_subdirs: skips the files among the children and collects the rest;
   * `warned` stands for the warning logged when nothing was found (no exception).
   */
  method ScenarioSubdirs(children: seq<DirEntry>) returns (paths: seq<string>, warned: bool)
    ensures paths == Subdirs(children)
    ensures warned <==> paths == []
    ensures forall n :: n in paths <==> exists i | 0 <= i < |children| :: !children[i].isFile && children[i].name == n
  {
    paths := [];
    for i := 0 to |children|
      invariant paths == Subdirs(children[..i])
    {
      assert children[..i + 1][..i] == children[..i];
      if children[i].isFile {
        continue;
      }
      paths := paths + [children[i].name];
    }
    assert children[..|children|] == children;
    warned := |paths| == 0;
    SubdirsMembers(children);
  }

  /** A name is discovered exactly when some child that is not a file carries it. */
  lemma {:induction false} SubdirsMembers(children: seq<DirEntry>)
    ensures forall n :: n in Subdirs(children) <==>
      exists i | 0 <= i < |children| :: !children[i].isFile && children[i].name == n
  {
    if children != [] {
      var init := children[..|children| - 1];
      SubdirsMembers(init);
      forall n ensures n in Subdirs(children) <==>
        exists i | 0 <= i < |children| :: !children[i].isFile && children[i].name == n
      {
        if exists i | 0 <= i < |children| :: !children[i].isFile && children[i].name == n {
          var i :| 0 <= i < |children| && !children[i].isFile && children[i].name == n;
          if i < |init| {
            assert !init[i].isFile && init[i].name == n;
          }
        }
      }
    }
  }

  /** Discovery keeps enumeration order: the scenarios of a concatenated listing are the concatenation. */
  lemma {:induction false} SubdirsAppend(a: seq<DirEntry>, b: seq<DirEntry>)
    ensures Subdirs(a + b) == Subdirs(a) + Subdirs(b)
  {
    if b == [] {
      assert a + b == a;
    } else {
      assert (a + b)[..|a + b| - 1] == a + b[..|b| - 1];
      SubdirsAppend(a, b[..|b| - 1]);
    }
  }

  /** Nothing is found exactly when every child is a file (the warning case). */
  lemma SubdirsEmpty(children: seq<DirEntry>)
    ensures Subdirs(children) == [] <==> forall e | e in children :: e.isFile
  {
    SubdirsMembers(children);
    if Subdirs(children) != [] {
      assert Subdirs(children)[0] in Subdirs(children);
    }
  }

  /** At most one scenario per child. */
  lemma {:induction false} SubdirsBound(children: seq<DirEntry>)
    ensures |Subdirs(children)| <= |children|
  {
    if children != [] {
      SubdirsBound(children[..|children| - 1]);
    }
  }
}
