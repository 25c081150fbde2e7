/**
 * Finding and loading a program (nuttx/binfmt: binfmt_exepath.c and
 * binfmt_loadmodule.c): the PATH is cut up in place, and each file found is
 * offered to the registered binary formats in turn.
 */
module BinfmtPath {
  import opened CStrings

  const OK := 0
  const ERROR := -1
  const ENOENT := 2

  // -------- the directories of a PATH --------

  /** The directories that are tried, in order. */
  function Directories(path: string): seq<string>
    decreases |path|
  {
    if path == "" then []
    else
      var n := Find(path, ':');
      if n == |path| then [path] else [path[..n]] + Directories(path[n + 1..])
  }

  /** What splitting at the colons gives: always one more piece than there are colons. */
  function Split(path: string): (r: seq<string>)
    ensures r != []
    decreases |path|
  {
    var n := Find(path, ':');
    if n == |path| then [path] else [path[..n]] + Split(path[n + 1..])
  }

  function Join(pieces: seq<string>): string {
    if pieces == [] then "" else if |pieces| == 1 then pieces[0] else pieces[0] + ":" + Join(pieces[1..])
  }

  /** Splitting is what it should be: the pieces hold no colon and joining them gives the PATH back. */
  lemma {:induction false} SplitJoin(path: string)
    ensures Join(Split(path)) == path
    ensures forall p :: p in Split(path) ==> ':' !in p
    decreases |path|
  {
    hide Find, Split;
    var n := Find(path, ':');
    if n < |path| {
      Stepwise(path, n);
      SplitJoin(path[n + 1..]);
      assert path == path[..n] + ":" + path[n + 1..];
    } else {
      OnePiece(path);
    }
  }

  /** The pieces without one empty piece at the end. */
  function Trimmed(pieces: seq<string>): seq<string>
    requires pieces != []
  {
    var n := |pieces| - 1;
    if pieces[n] == "" then pieces[..n] else pieces
  }

  lemma TrimmedStep(first: string, pieces: seq<string>)
    requires pieces != []
    ensures Trimmed([first] + pieces) == [first] + Trimmed(pieces)
  {
    var all := [first] + pieces;
    assert all[..|all| - 1] == [first] + pieces[..|pieces| - 1];
  }

  /** The directories are the pieces, but for one empty piece at the end. */
  lemma {:induction false} DirectoriesAreSplit(path: string)
    ensures Directories(path) == Trimmed(Split(path))
    decreases |path|
  {
    hide Find, Trimmed, Split, Directories;
    var n := Find(path, ':');
    if n < |path| {
      Stepwise(path, n);
      DirectoriesAreSplit(path[n + 1..]);
      TrimmedStep(path[..n], Split(path[n + 1..]));
    } else {
      OnePiece(path);
    }
  }

  lemma Stepwise(path: string, n: nat)
    requires n == Find(path, ':') < |path|
    ensures Directories(path) == [path[..n]] + Directories(path[n + 1..])
    ensures Split(path) == [path[..n]] + Split(path[n + 1..])
  {
    hide Find;
  }

  lemma OnePiece(path: string)
    requires Find(path, ':') == |path|
    ensures Split(path) == [path] && Directories(path) == Trimmed(Split(path))
  {
  }

  function Full(directory: string, relpath: string): string {
    directory + "/" + relpath
  }

  /** The directory, a slash and the name. */
  lemma FullParts(directory: string, relpath: string)
    ensures var full, n := Full(directory, relpath), |directory|;
            && |full| == n + 1 + |relpath| && full[..n] == directory && full[n] == '/' && full[n + 1..] == relpath
  {
  }

  /** Index of the first directory that holds a regular file of that name, or the length. */
  function Hit(directories: seq<string>, relpath: string, regular: string -> bool): (i: nat)
    ensures i <= |directories|
    ensures i < |directories| ==> regular(Full(directories[i], relpath))
    ensures forall j :: 0 <= j < i ==> !regular(Full(directories[j], relpath))
  {
    if directories == [] || regular(Full(directories[0], relpath)) then 0
    else 1 + Hit(directories[1..], relpath, regular)
  }

  /** The copied PATH, which the traversal overwrites as it goes. */
  class ExePath {
    const path: array<char>
    var next: nat
    ghost var rest: string

    ghost predicate Valid()
      reads this, path
    {
      IsStr(path[..], next, rest)
    }

    constructor (value: string)
      requires NUL !in value
      ensures Valid() && fresh(path) && rest == value
    {
      path := new char[|value| + 1](i => if 0 <= i < |value| then value[i] else NUL);
      next := 0;
      rest := value;
    }

    /** Cuts the next directory off. */
    method Cut() returns (directory: string)
      requires Valid() && rest != ""
      modifies this, path
      ensures Valid() && |rest| < |old(rest)|
      ensures Directories(old(rest)) == [directory] + Directories(rest)
    {
      var start := next;
      var endptr := FindAt(path, start, ':', rest);
      ghost var n := Find(rest, ':');
      if path[endptr] == NUL {
        StrChar(path[..], start, rest, n);
        StrTail(path[..], start, rest, |rest|);
        next := endptr;
        directory := path[start..endptr];
        assert directory == rest;
        rest := "";
      } else {
        StrChar(path[..], start, rest, n);
        StrCut(path[..], start, rest, n);
        next := endptr + 1;
        path[endptr] := NUL;
        directory := path[start..endptr];
        assert directory == rest[..n];
        rest := rest[n + 1..];
      }
    }

    /** The next regular file of that name along the PATH. */
    method Next(relpath: string, regular: string -> bool) returns (fullpath: Option<string>)
      requires Valid()
      modifies this, path
      ensures Valid() && |rest| <= |old(rest)|
      ensures var all := Directories(old(rest)); var i := Hit(all, relpath, regular);
              if i == |all| then fullpath == None && rest == ""
              else fullpath == Some(Full(all[i], relpath)) && Directories(rest) == all[i + 1..]
                   && |rest| < |old(rest)|
    {
      ghost var all, i := Directories(rest), 0;
      while true
        invariant Valid() && |rest| <= |old(rest)| && 0 <= i <= |all|
        invariant Directories(rest) == all[i..]
        invariant forall j :: 0 <= j < i ==> !regular(Full(all[j], relpath))
        decreases |rest|
      {
        StrChar(path[..], next, rest, 0);
        if path[next] == NUL {
          HitIs(all, relpath, regular, |all|);
          return None;
        }
        var directory := Cut();
        assert all[i..][0] == directory && all[i..][1..] == all[i + 1..];
        var full := Full(directory, relpath);
        if regular(full) {
          HitIs(all, relpath, regular, i);
          return Some(full);
        }
        i := i + 1;
      }
    }
  }

  lemma {:induction false} HitIs(directories: seq<string>, relpath: string, regular: string -> bool, i: nat)
    requires i <= |directories| && (i < |directories| ==> regular(Full(directories[i], relpath)))
    requires forall j :: 0 <= j < i ==> !regular(Full(directories[j], relpath))
    ensures Hit(directories, relpath, regular) == i
  {
  }

  // -------- the formats --------

  /** What a format's load operation answers: zero, or a negated error number. */
  type Load = (nat, string) -> int

  /** The first of n formats that loads the file, or n. */
  function Format(n: nat, load: Load, file: string): (h: nat)
    ensures h <= n && (h < n ==> load(h, file) == OK)
    ensures forall g :: 0 <= g < h ==> load(g, file) != OK
  {
    FormatFrom(n, load, file, 0)
  }

  function FormatFrom(n: nat, load: Load, file: string, from: nat): (h: nat)
    requires from <= n
    ensures from <= h <= n && (h < n ==> load(h, file) == OK)
    ensures forall g :: from <= g < h ==> load(g, file) != OK
    decreases n - from
  {
    if from == n || load(from, file) == OK then from else FormatFrom(n, load, file, from + 1)
  }

  datatype Choice = Nothing | Choice(file: string, format: nat)

  /** The first regular file along the directories that some format loads, and that format. */
  function Chosen(directories: seq<string>, relpath: string, regular: string -> bool, n: nat, load: Load): Choice
    decreases |directories|
  {
    if directories == [] then Nothing
    else
      var file := Full(directories[0], relpath);
      if regular(file) && Format(n, load, file) < n then Choice(file, Format(n, load, file))
      else Chosen(directories[1..], relpath, regular, n, load)
  }

  /** Does some format load the regular file in this directory? */
  ghost predicate Loadable(directory: string, relpath: string, regular: string -> bool, n: nat, load: Load) {
    regular(Full(directory, relpath)) && exists h: nat :: h < n && load(h, Full(directory, relpath)) == OK
  }

  lemma FormatIs(n: nat, load: Load, file: string, h: nat)
    requires h <= n && (h < n ==> load(h, file) == OK)
    requires forall g :: 0 <= g < h ==> load(g, file) != OK
    ensures Format(n, load, file) == h
  {
  }

  lemma FormatExists(n: nat, load: Load, file: string)
    ensures Format(n, load, file) < n <==> exists h: nat :: h < n && load(h, file) == OK
  {
  }

  /** Something is chosen exactly when something can be loaded, and then it is the first of them. */
  lemma {:induction false} ChosenExactly(directories: seq<string>, relpath: string, regular: string -> bool,
                                         n: nat, load: Load)
    ensures var c := Chosen(directories, relpath, regular, n, load);
      if c.Nothing? then forall j :: 0 <= j < |directories| ==> !Loadable(directories[j], relpath, regular, n, load)
      else exists i ::
        && 0 <= i < |directories| && c.file == Full(directories[i], relpath) && regular(c.file)
        && (forall j :: 0 <= j < i ==> !Loadable(directories[j], relpath, regular, n, load))
        && c.format < n && load(c.format, c.file) == OK
        && (forall g :: 0 <= g < c.format ==> load(g, c.file) != OK)
    decreases |directories|
  {
    if directories != [] {
      var file := Full(directories[0], relpath);
      FormatExists(n, load, file);
      if !(regular(file) && Format(n, load, file) < n) {
        assert !Loadable(directories[0], relpath, regular, n, load);
        var rest := directories[1..];
        ChosenExactly(rest, relpath, regular, n, load);
        var c := Chosen(rest, relpath, regular, n, load);
        assert forall j :: 0 <= j < |rest| ==> rest[j] == directories[j + 1];
        if c.Choice? {
          var i :| 0 <= i < |rest| && c.file == Full(rest[i], relpath) && regular(c.file)
            && (forall j :: 0 <= j < i ==> !Loadable(rest[j], relpath, regular, n, load));
          assert c.file == Full(directories[i + 1], relpath);
          forall j | 0 <= j < i + 1
            ensures !Loadable(directories[j], relpath, regular, n, load)
          {
            if j > 0 {
              assert rest[j - 1] == directories[j];
            }
          }
        } else {
          forall j | 0 <= j < |directories|
            ensures !Loadable(directories[j], relpath, regular, n, load)
          {
            if j > 0 {
              assert rest[j - 1] == directories[j];
            }
          }
        }
      }
    }
  }

  lemma ChosenSkip(directories: seq<string>, relpath: string, regular: string -> bool, n: nat, load: Load)
    ensures var i := Hit(directories, relpath, regular);
            if i == |directories| then Chosen(directories, relpath, regular, n, load) == Nothing
            else
              var file := Full(directories[i], relpath);
              Chosen(directories, relpath, regular, n, load)
              == if Format(n, load, file) < n then Choice(file, Format(n, load, file))
                 else Chosen(directories[i + 1..], relpath, regular, n, load)
    decreases |directories|
  {
    if directories != [] && !regular(Full(directories[0], relpath)) {
      ChosenSkip(directories[1..], relpath, regular, n, load);
      var i := Hit(directories[1..], relpath, regular);
      if i < |directories| - 1 {
        assert directories[1..][i + 1..] == directories[i + 2..];
      }
    }
  }

  // -------- the calls that are made --------

  /** A call of a format's load operation. */
  datatype Try = Try(format: nat, file: string)

  /** The first h formats tried on a file. */
  function FirstTries(h: nat, file: string): (r: seq<Try>)
    ensures |r| == h && forall g :: 0 <= g < h ==> r[g] == Try(g, file)
  {
    if h == 0 then [] else FirstTries(h - 1, file) + [Try(h - 1, file)]
  }

  /** The formats that are tried on a file: up to the first that loads it. */
  function FileTries(n: nat, load: Load, file: string): seq<Try> {
    var h := Format(n, load, file);
    FirstTries(if h < n then h + 1 else n, file)
  }

  /** The calls along the directories: up to the first that succeeds. */
  function Tries(directories: seq<string>, relpath: string, regular: string -> bool, n: nat, load: Load): seq<Try>
    decreases |directories|
  {
    if directories == [] then []
    else
      var file := Full(directories[0], relpath);
      var rest := Tries(directories[1..], relpath, regular, n, load);
      if !regular(file) then rest
      else FileTries(n, load, file) + (if Format(n, load, file) < n then [] else rest)
  }

  /** The last call, and only that one, is the one that loads what is chosen. */
  lemma {:induction false} TriesEnd(directories: seq<string>, relpath: string, regular: string -> bool, n: nat, load: Load)
    ensures var c, ts := Chosen(directories, relpath, regular, n, load), Tries(directories, relpath, regular, n, load);
      if c.Choice? then
        && ts != [] && ts[|ts| - 1] == Try(c.format, c.file) && load(c.format, c.file) == OK
        && forall i :: 0 <= i < |ts| - 1 ==> load(ts[i].format, ts[i].file) != OK
      else forall i :: 0 <= i < |ts| ==> load(ts[i].format, ts[i].file) != OK
    decreases |directories|
  {
    if directories != [] {
      TriesEnd(directories[1..], relpath, regular, n, load);
    }
  }

  /** A name that no format loads is offered, in each directory of the PATH in turn that has it, to every format in
      turn, and nothing else is. */
  lemma {:induction false} TriesAll(directories: seq<string>, relpath: string, regular: string -> bool, n: nat, load: Load)
    requires forall h: nat, file: string :: load(h, file) != OK
    ensures Tries(directories, relpath, regular, n, load) == Everything(directories, relpath, regular, n)
    decreases |directories|
  {
    if directories != [] {
      TriesAll(directories[1..], relpath, regular, n, load);
    }
  }

  function Everything(directories: seq<string>, relpath: string, regular: string -> bool, n: nat): seq<Try>
    decreases |directories|
  {
    if directories == [] then []
    else
      var file := directories[0] + "/" + relpath;
      (if regular(file) then FirstTries(n, file) else []) + Everything(directories[1..], relpath, regular, n)
  }

  lemma {:induction false} TriesSkip(directories: seq<string>, relpath: string, regular: string -> bool, n: nat, load: Load)
    ensures var i := Hit(directories, relpath, regular);
            if i == |directories| then Tries(directories, relpath, regular, n, load) == []
            else
              var file := Full(directories[i], relpath);
              Tries(directories, relpath, regular, n, load)
              == FileTries(n, load, file)
                + if Format(n, load, file) < n then [] else Tries(directories[i + 1..], relpath, regular, n, load)
    decreases |directories|
  {
    hide FileTries, Format;
    if directories != [] && !regular(Full(directories[0], relpath)) {
      TriesSkip(directories[1..], relpath, regular, n, load);
      var i := Hit(directories[1..], relpath, regular);
      if i < |directories| - 1 {
        assert directories[1..][i + 1..] == directories[i + 2..];
      }
    }
  }

  /** What is chosen when `next` is the next file and `rest` the directories behind it. */
  function Ahead(next: Option<string>, rest: seq<string>, relpath: string, regular: string -> bool, n: nat, load: Load): Choice {
    if next.None? then Nothing
    else if Format(n, load, next.value) < n then Choice(next.value, Format(n, load, next.value))
    else Chosen(rest, relpath, regular, n, load)
  }

  /** The calls that are then made. */
  function Todo(next: Option<string>, rest: seq<string>, relpath: string, regular: string -> bool, n: nat, load: Load): seq<Try> {
    if next.None? then []
    else
      var more := if Format(n, load, next.value) < n then [] else Tries(rest, relpath, regular, n, load);
      FileTries(n, load, next.value) + more
  }

  lemma Found(all: seq<string>, relpath: string, regular: string -> bool, n: nat, load: Load,
              next: Option<string>, rest: seq<string>)
    requires var i := Hit(all, relpath, regular);
      if i == |all| then next == None else next == Some(Full(all[i], relpath)) && rest == all[i + 1..]
    ensures Chosen(all, relpath, regular, n, load) == Ahead(next, rest, relpath, regular, n, load)
    ensures Tries(all, relpath, regular, n, load) == Todo(next, rest, relpath, regular, n, load)
  {
    hide Chosen, Tries, FileTries, Format, Hit;
    ChosenSkip(all, relpath, regular, n, load);
    TriesSkip(all, relpath, regular, n, load);
  }

  lemma Loaded(file: string, rest: seq<string>, relpath: string, regular: string -> bool, n: nat, load: Load)
    ensures Format(n, load, file) < n ==>
      && Ahead(Some(file), rest, relpath, regular, n, load) == Choice(file, Format(n, load, file))
      && Todo(Some(file), rest, relpath, regular, n, load) == FileTries(n, load, file)
    ensures Format(n, load, file) == n ==>
      && Ahead(Some(file), rest, relpath, regular, n, load) == Chosen(rest, relpath, regular, n, load)
      && Todo(Some(file), rest, relpath, regular, n, load) == FileTries(n, load, file) + Tries(rest, relpath, regular, n, load)
  {
    hide Chosen, Tries, FileTries, Format;
  }

  lemma NothingAhead(rest: seq<string>, relpath: string, regular: string -> bool, n: nat, load: Load)
    ensures Ahead(None, rest, relpath, regular, n, load) == Nothing && Todo(None, rest, relpath, regular, n, load) == []
  {
  }

  // -------- loading --------

  class Binary {
    var filename: string
    var unload: Option<nat>
    var priority: int
    ghost var tried: seq<Try>

    constructor (filename: string)
      ensures this.filename == filename && unload == None && tried == []
    {
      this.filename, unload, priority, tried := filename, None, 0, [];
    }

    /** Offers the file to each of the n formats until one loads it. */
    method LoadAbsModule(n: nat, load: Load) returns (ret: int)
      requires forall h: nat, file: string :: load(h, file) <= OK
      modifies this`unload, this`tried
      ensures var h := Format(n, load, filename);
              if h < n then ret == OK && unload == Some(h) else ret < OK && unload == old(unload)
      ensures tried == old(tried) + FileTries(n, load, filename)
    {
      ret := -ENOENT;
      var h := 0;
      while h < n
        invariant 0 <= h <= n && ret < OK && unload == old(unload)
        invariant forall g :: 0 <= g < h ==> load(g, filename) != OK
        invariant tried == old(tried) + FirstTries(h, filename)
      {
        ret := load(h, filename);
        tried := tried + [Try(h, filename)];
        if ret == OK {
          FormatIs(n, load, filename, h);
          unload := Some(h);
          return;
        }
        h := h + 1;
      }
      FormatIs(n, load, filename, n);
    }

    /** Tries the files along the PATH; leaves the last one tried as the file name. */
    method LoadAlong(handle: ExePath, relpath: string, regular: string -> bool, n: nat, load: Load) returns (ret: int)
      requires handle.Valid()
      requires forall h: nat, file: string :: load(h, file) <= OK
      modifies this`filename, this`unload, this`tried, handle, handle.path
      ensures tried == old(tried) + Tries(Directories(old(handle.rest)), relpath, regular, n, load)
      ensures var c := Chosen(Directories(old(handle.rest)), relpath, regular, n, load);
              if c.Choice? then ret == OK && unload == Some(c.format) else ret < OK && unload == old(unload)
    {
      hide Tries, Chosen, FileTries, Format, Hit, Directories, Ahead, Todo;
      ghost var all := Directories(handle.rest);
      ghost var c := Chosen(all, relpath, regular, n, load);
      ret := -ENOENT;
      var fullpath := handle.Next(relpath, regular);
      Found(all, relpath, regular, n, load, fullpath, Directories(handle.rest));
      while fullpath.Some?
        invariant handle.Valid() && ret < OK && unload == old(unload)
        invariant c == Ahead(fullpath, Directories(handle.rest), relpath, regular, n, load)
        invariant old(tried) + Tries(all, relpath, regular, n, load)
               == tried + Todo(fullpath, Directories(handle.rest), relpath, regular, n, load)
        decreases fullpath.Some?, |handle.rest|
      {
        filename := fullpath.value;
        ret := LoadAbsModule(n, load);
        Loaded(filename, Directories(handle.rest), relpath, regular, n, load);
        if ret == OK {
          return;
        }
        ghost var rest := Directories(handle.rest);
        fullpath := handle.Next(relpath, regular);
        Found(rest, relpath, regular, n, load, fullpath, Directories(handle.rest));
      }
      NothingAhead(Directories(handle.rest), relpath, regular, n, load);
    }

    /** Loads the program: a relative name is looked up along the PATH. */
    method LoadModule(path: Option<string>, priority: Option<int>, regular: string -> bool, n: nat, load: Load)
      returns (ret: int)
      requires path.Some? ==> NUL !in path.value
      requires forall h: nat, file: string :: load(h, file) <= OK
      modifies this
      ensures filename == old(filename)
      ensures ret == OK || ret == ERROR
      ensures priority.None? ==> ret == ERROR && unload == old(unload) && tried == old(tried)
      ensures priority.Some? && old(filename) != "" && old(filename)[0] == '/' ==>
        var h := Format(n, load, filename);
        && tried == old(tried) + FileTries(n, load, filename)
        && if h < n then ret == OK && unload == Some(h) else ret == ERROR && unload == old(unload)
      ensures priority.Some? && !(old(filename) != "" && old(filename)[0] == '/') ==>
        var directories := if path.Some? then Directories(path.value) else [];
        var c := Chosen(directories, filename, regular, n, load);
        && tried == old(tried) + Tries(directories, filename, regular, n, load)
        && (c.Choice? ==> ret == OK && unload == Some(c.format) && tried != [] && tried[|tried| - 1] == Try(c.format, c.file))
        && (c.Nothing? ==> ret == ERROR && unload == old(unload))
    {
      if priority.None? {
        return ERROR;
      }
      this.priority := priority.value;
      if filename == "" || filename[0] != '/' {
        var relpath := filename;
        ret := -ENOENT;
        if path.Some? {
          var handle := new ExePath(path.value);
          ret := LoadAlong(handle, relpath, regular, n, load);
          TriesEnd(Directories(path.value), relpath, regular, n, load);
        }
        filename := relpath;
      } else {
        ret := LoadAbsModule(n, load);
      }
      if ret < 0 {
        return ERROR;
      }
    }
  }
}
