/** fs.c: cutting a file path into its names, in place. */
module Paths {
  /** The names once one more character is read. */
  function Extend(names: seq<seq<char>>, c: char): (more: seq<seq<char>>)
    requires |names| > 0
    ensures |more| > 0
  {
    var last := |names| - 1;
    if c == '/' then names + [[]] else names[last := names[last] + [c]]
  }

  /** The names between the slashes of a path, the first one possibly empty. */
  function Names(path: seq<char>): (names: seq<seq<char>>)
    ensures |names| > 0
  {
    if path == [] then [[]]
    else
      var n := |path| - 1;
      Extend(Names(path[..n]), path[n])
  }

  function Join(names: seq<seq<char>>): seq<char>
    requires |names| > 0
  {
    var n := |names| - 1;
    if n == 0 then names[0] else Join(names[..n]) + ['/'] + names[n]
  }

  lemma JoinOpen(names: seq<seq<char>>)
    requires |names| > 0
    ensures Join(names + [[]]) == Join(names) + ['/']
  {
    assert (names + [[]])[..|names|] == names;
  }

  lemma JoinLast(names: seq<seq<char>>, name: seq<char>, c: char)
    ensures Join(names + [name + [c]]) == Join(names + [name]) + [c]
  {
    assert (names + [name])[..|names|] == names && (names + [name + [c]])[..|names|] == names;
    if names != [] {
      Regroup(Join(names) + ['/'], name, [c]);
    }
  }

  lemma Regroup(a: seq<char>, b: seq<char>, c: seq<char>)
    ensures a + (b + c) == a + b + c
  {
  }

  lemma JoinExtend(names: seq<seq<char>>, c: char)
    requires |names| > 0
    ensures Join(Extend(names, c)) == Join(names) + [c]
  {
    if c == '/' {
      JoinOpen(names);
    } else {
      var last := |names| - 1;
      JoinLast(names[..last], names[last], c);
      assert names == names[..last] + [names[last]];
      assert Extend(names, c) == names[..last] + [names[last] + [c]];
    }
  }

  /** Joining the names gives the path back. */
  lemma {:induction false} JoinNames(path: seq<char>)
    ensures Join(Names(path)) == path
  {
    if path != [] {
      var n := |path| - 1;
      JoinNames(path[..n]);
      JoinExtend(Names(path[..n]), path[n]);
      assert path == path[..n] + [path[n]];
    }
  }

  ghost predicate NoSlashes(names: seq<seq<char>>) {
    forall i :: 0 <= i < |names| ==> '/' !in names[i]
  }

  lemma {:induction false} NamesHaveNoSlashes(path: seq<char>)
    ensures NoSlashes(Names(path))
  {
    if path != [] {
      NamesHaveNoSlashes(path[..|path| - 1]);
    }
  }

  lemma NamesStep(path: seq<char>, c: char)
    ensures Names(path + [c]) == Extend(Names(path), c)
  {
    assert (path + [c])[..|path|] == path;
  }

  /** The names with the last one lengthened. */
  function Lengthen(names: seq<seq<char>>, name: seq<char>): seq<seq<char>>
    requires |names| > 0
  {
    names[..|names| - 1] + [names[|names| - 1] + name]
  }

  lemma LengthenStep(names: seq<seq<char>>, name: seq<char>, c: char)
    requires |names| > 0 && c != '/'
    ensures Extend(Lengthen(names, name), c) == Lengthen(names, name + [c])
  {
    assert names[|names| - 1] + name + [c] == names[|names| - 1] + (name + [c]);
  }

  /** A name without slashes only lengthens the last name. */
  lemma {:induction false} NamesOfName(path: seq<char>, name: seq<char>)
    requires '/' !in name
    ensures Names(path + name) == Lengthen(Names(path), name)
    decreases |name|
  {
    if name == [] {
      assert path + name == path;
      assert Names(path)[|Names(path)| - 1] + [] == Names(path)[|Names(path)| - 1];
    } else {
      var m := |name| - 1;
      assert name == name[..m] + [name[m]];
      NamesOfName(path, name[..m]);
      NamesStep(path + name[..m], name[m]);
      LengthenStep(Names(path), name[..m], name[m]);
      assert path + name == path + name[..m] + [name[m]];
    }
  }

  /** Cutting a joined path gives its names back, whatever slash-free names they are. */
  lemma {:induction false} NamesJoin(names: seq<seq<char>>)
    requires |names| > 0 && NoSlashes(names)
    ensures Names(Join(names)) == names
  {
    var n := |names| - 1;
    if n == 0 {
      NamesOfName([], names[0]);
      assert [] + names[0] == names[0];
    } else {
      NamesJoin(names[..n]);
      NamesStep(Join(names[..n]), '/');
      NamesOfName(Join(names[..n]) + ['/'], names[n]);
      LengthenOpen(names[..n], names[n]);
      assert names == names[..n] + [names[n]];
    }
  }

  lemma LengthenOpen(names: seq<seq<char>>, name: seq<char>)
    requires |names| > 0
    ensures Lengthen(Extend(names, '/'), name) == names + [name]
  {
    assert [] + name == name;
    assert (names + [[]])[..|names|] == names;
  }

  /** The C string that starts at p is s. */
  ghost predicate StringAt(cells: seq<char>, p: nat, s: seq<char>) {
    && p + |s| < |cells|
    && cells[p..p + |s|] == s
    && cells[p + |s|] == '\0'
    && '\0' !in s
  }

  /** While names are being cut at i: those before the last are in place, the last is still open. */
  ghost predicate Cut(cells: seq<char>, names: seq<seq<char>>, dirs: seq<nat>, current: nat, i: nat) {
    && 0 < |names| <= |dirs| && current <= i < |cells|
    && var last := |names| - 1;
    && cells[current..i] == names[last] && '\0' !in names[last]
    && forall j :: 0 <= j < last ==> dirs[j] + |names[j]| < i && StringAt(cells, dirs[j], names[j])
  }

  lemma StringStays(cells: seq<char>, i: nat, p: nat, s: seq<char>)
    requires i < |cells| && p + |s| < i && StringAt(cells, p, s)
    ensures StringAt(cells[i := '\0'], p, s)
  {
    assert cells[i := '\0'][p..p + |s|] == cells[p..p + |s|];
  }

  /** A terminator closes the last name. */
  lemma CutClose(cells: seq<char>, names: seq<seq<char>>, dirs: seq<nat>, current: nat, i: nat)
    requires Cut(cells, names, dirs, current, i)
    ensures var closed, starts := cells[i := '\0'], dirs[|names| - 1 := current];
            forall j :: 0 <= j < |names| ==>
              starts[j] + |names[j]| <= i && StringAt(closed, starts[j], names[j])
  {
    var closed, starts := cells[i := '\0'], dirs[|names| - 1 := current];
    forall j | 0 <= j < |names| ensures starts[j] + |names[j]| <= i && StringAt(closed, starts[j], names[j]) {
      if j < |names| - 1 {
        StringStays(cells, i, dirs[j], names[j]);
      } else {
        assert closed[current..i] == cells[current..i];
      }
    }
  }

  lemma CutLengthen(cells: seq<char>, names: seq<seq<char>>, dirs: seq<nat>, current: nat, i: nat)
    requires Cut(cells, names, dirs, current, i) && i + 1 < |cells| && cells[i] != '\0' && cells[i] != '/'
    ensures Cut(cells, Extend(names, cells[i]), dirs, current, i + 1)
  {
    assert cells[current..i + 1] == cells[current..i] + [cells[i]];
  }

  /** And opens the next one. */
  lemma CutNext(cells: seq<char>, names: seq<seq<char>>, dirs: seq<nat>, current: nat, i: nat)
    requires Cut(cells, names, dirs, current, i) && i + 1 < |cells| && |names| < |dirs|
    ensures Cut(cells[i := '\0'], Extend(names, '/'), dirs[|names| - 1 := current], i + 1, i + 1)
  {
    CutClose(cells, names, dirs, current, i);
  }

  lemma {:induction false} MoreNames(path: seq<char>, i: nat)
    requires i <= |path|
    ensures |Names(path[..i])| <= |Names(path)|
    decreases |path|
  {
    if i < |path| {
      var n := |path| - 1;
      MoreNames(path[..n], i);
      assert path[..n][..i] == path[..i];
    } else {
      assert path[..i] == path;
    }
  }

  /** A character of the path as cutting leaves it. */
  function Terminated(c: char): char {
    if c == '/' then '\0' else c
  }

  /** How many slashes there are tells how many names there will be. */
  method CountDirs(path: array<char>, len: nat) returns (numDirs: nat)
    requires len < path.Length
    ensures numDirs + 1 == |Names(path[..len])|
  {
    numDirs := 0;
    var i := 0;
    while i < len
      invariant 0 <= i <= len
      invariant numDirs + 1 == |Names(path[..i])|
    {
      assert path[..i + 1] == path[..i] + [path[i]];
      NamesStep(path[..i], path[i]);
      if path[i] == '/' {
        numDirs := numDirs + 1;
      }
      i := i + 1;
    }
  }

  /** One round of the loop: closes a name at a slash or at the end. */
  method CutStep(path: array<char>, dirs: array<nat>, i: nat, current: nat, dirIndex: nat,
                 ghost names: seq<seq<char>>)
    returns (start: nat, index: nat)
    requires Cut(path[..], names, dirs[..], current, i) && dirIndex + 1 == |names|
    requires path[i] != '\0' ==> i + 1 < path.Length && |Extend(names, path[i])| <= dirs.Length
    modifies path, dirs
    ensures path[..] == old(path[..])[i := Terminated(old(path[i]))]
    ensures old(path[i]) == '\0' ==>
      forall j :: 0 <= j < |names| ==> StringAt(path[..], dirs[j], names[j])
    ensures old(path[i]) != '\0' ==>
      && Cut(path[..], Extend(names, old(path[i])), dirs[..], start, i + 1)
      && index + 1 == |Extend(names, old(path[i]))|
  {
    ghost var cells, starts := path[..], dirs[..];
    start, index := current, dirIndex;
    if path[i] == '/' || path[i] == '\0' {
      CutClose(cells, names, starts, current, i);
      if path[i] == '/' {
        CutNext(cells, names, starts, current, i);
      }
      path[i] := '\0';
      dirs[index] := start;
      index := index + 1;
      start := i + 1;
      assert path[..] == cells[i := '\0'];
      assert dirs[..] == starts[|names| - 1 := current];
    } else {
      CutLengthen(cells, names, starts, current, i);
      assert path[..] == cells[i := Terminated(cells[i])];
    }
  }

  /** The path with its first i characters cut. */
  ghost predicate CutTo(cells: seq<char>, was: seq<char>, i: nat) {
    && |cells| == |was|
    && forall k :: 0 <= k < |was| ==> cells[k] == if k < i then Terminated(was[k]) else was[k]
  }

  lemma CutToStep(cells: seq<char>, was: seq<char>, i: nat)
    requires CutTo(cells, was, i) && i < |was|
    ensures CutTo(cells[i := Terminated(cells[i])], was, i + 1)
  {
  }

  /** Reading one more character of the path. */
  lemma ReadOn(path: seq<char>, i: nat)
    requires i < |path|
    ensures Names(path[..i + 1]) == Extend(Names(path[..i]), path[i])
    ensures |Names(path[..i + 1])| <= |Names(path)|
  {
    assert path[..i + 1] == path[..i] + [path[i]];
    NamesStep(path[..i], path[i]);
    MoreNames(path, i + 1);
  }

  /** Cuts the path in place: the answer holds where each name starts, the last being numDirs. */
  method ParsePath(path: array<char>, len: nat) returns (dirs: array<nat>, numDirs: nat)
    requires len < path.Length && path[len] == '\0' && '\0' !in path[..len]
    modifies path
    ensures CutTo(path[..], old(path[..]), len)
    ensures fresh(dirs) && dirs.Length == numDirs + 1 == |Names(old(path[..len]))|
    ensures forall j :: 0 <= j <= numDirs ==> StringAt(path[..], dirs[j], Names(old(path[..len]))[j])
  {
    ghost var full, was := path[..], path[..len];
    numDirs := CountDirs(path, len);
    dirs := new nat[numDirs + 1];
    var current: nat, dirIndex: nat := 0, 0;
    var i := 0;
    ghost var names := Names([]);
    assert was[..0] == [] && was[..len] == was;
    while i <= len
      invariant 0 <= i <= len + 1
      invariant CutTo(path[..], full, i)
      invariant i <= len ==>
        names == Names(was[..i]) && dirIndex + 1 == |names| && Cut(path[..], names, dirs[..], current, i)
      invariant i == len + 1 ==>
        forall j :: 0 <= j <= numDirs ==> StringAt(path[..], dirs[j], Names(was)[j])
    {
      CutToStep(path[..], full, i);
      ghost var c := path[i];
      if i < len {
        assert c == was[i];
        ReadOn(was, i);
      }
      current, dirIndex := CutStep(path, dirs, i, current, dirIndex, names);
      names := Extend(names, c);
      i := i + 1;
    }
  }
}
