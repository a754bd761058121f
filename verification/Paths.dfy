/** Printing and resolving file paths (`resolvePathID` in `pkg/services/common.go`, `getFullPath` in
    `pkg/services/file.go`). */
module Paths {
  import opened Bytes

  // ---- Strings ---------------------------------------------------------------------------

  predicate SlashFree(s: string) { '/' !in s }

  /** A usable file name. */
  predicate IsName(s: string) { s != "" && SlashFree(s) }

  /** `string_agg(name, '/')`. */
  function Join(parts: seq<string>): string
  {
    if parts == [] then ""
    else if |parts| == 1 then parts[0]
    else parts[0] + "/" + Join(parts[1..])
  }

  /** Split at every slash. */
  function Split(s: string): (parts: seq<string>)
    ensures parts != []
  {
    if s == "" then [""]
    else if s[0] == '/' then [""] + Split(s[1..])
    else
      var rest := Split(s[1..]);
      [[s[0]] + rest[0]] + rest[1..]
  }

  /** `string_to_array(s, '/')`, which makes no parts of an empty string. */
  function PathParts(s: string): seq<string> { if s == "" then [] else Split(s) }

  function TrimLeft(s: string): string
  {
    if s != "" && s[0] == '/' then TrimLeft(s[1..]) else s
  }

  function TrimRight(s: string): string
  {
    if s != "" && s[|s| - 1] == '/' then TrimRight(s[..|s| - 1]) else s
  }

  function Trim(s: string): string { TrimRight(TrimLeft(s)) }

  predicate HasPrefix(s: string, p: string) { p <= s }

  function TrimPrefix(s: string, p: string): string { if p <= s then s[|p|..] else s }

  lemma {:induction false} SplitName(a: string)
    requires SlashFree(a)
    ensures Split(a) == [a]
  {
    if a == "" {
    } else {
      assert '/' !in a[1..];
      SplitName(a[1..]);
      assert [a[0]] + a[1..] == a;
    }
  }

  lemma {:induction false} SplitAtSlash(a: string, t: string)
    requires SlashFree(a)
    ensures Split(a + "/" + t) == [a] + Split(t)
  {
    var s := a + "/" + t;
    if a == "" {
      assert s[0] == '/' && s[1..] == t;
    } else {
      assert '/' !in a[1..];
      SplitAtSlash(a[1..], t);
      assert s[0] == a[0] && s[1..] == a[1..] + "/" + t;
      assert [a[0]] + a[1..] == a;
    }
  }

  /** Splitting a joined path gives its components back. */
  lemma {:induction false} SplitJoin(parts: seq<string>)
    requires parts != [] && forall i :: 0 <= i < |parts| ==> SlashFree(parts[i])
    ensures Split(Join(parts)) == parts
  {
    if |parts| == 1 {
      SplitName(parts[0]);
    } else {
      SplitAtSlash(parts[0], Join(parts[1..]));
      SplitJoin(parts[1..]);
    }
  }

  /** Components as trimming leaves them: none holds a slash, and the first and the last are not empty. */
  predicate Trimmed(parts: seq<string>)
  {
    && parts != [] && (forall i :: 0 <= i < |parts| ==> SlashFree(parts[i]))
    && parts[0] != "" && parts[|parts| - 1] != ""
  }

  lemma {:induction false} NamesAreTrimmed(parts: seq<string>)
    requires parts != [] && forall i :: 0 <= i < |parts| ==> IsName(parts[i])
    ensures Trimmed(parts)
  {
    assert IsName(parts[0]) && IsName(parts[|parts| - 1]);
  }

  lemma {:induction false} JoinLast(parts: seq<string>)
    requires parts != [] && parts[|parts| - 1] != "" && SlashFree(parts[|parts| - 1])
    ensures var s := Join(parts); s != "" && s[|s| - 1] != '/'
  {
    if |parts| == 1 {
      var p := parts[0];
      assert p[|p| - 1] in p;
    } else {
      JoinLast(parts[1..]);
    }
  }

  /** A trimmed path neither begins nor ends with a slash. */
  lemma {:induction false} JoinEnds(parts: seq<string>)
    requires Trimmed(parts)
    ensures var s := Join(parts);
            s != "" && s[0] != '/' && s[|s| - 1] != '/' && parts[0] <= s
    ensures |parts| > 1 ==> |Join(parts)| > |parts[0]| && Join(parts)[|parts[0]|] == '/'
  {
    JoinLast(parts);
    var p := parts[0];
    assert p[0] in p;
  }

  function Slashes(n: nat): string { seq(n, _ => '/') }

  lemma {:induction false} TrimLeftSlashes(n: nat, s: string)
    requires s == "" || s[0] != '/'
    ensures TrimLeft(Slashes(n) + s) == s
  {
    if n == 0 {
      assert Slashes(0) + s == s;
    } else {
      TrimLeftSlashes(n - 1, s);
      assert (Slashes(n) + s)[1..] == Slashes(n - 1) + s;
    }
  }

  lemma {:induction false} TrimRightSlashes(s: string, n: nat)
    requires s == "" || s[|s| - 1] != '/'
    ensures TrimRight(s + Slashes(n)) == s
  {
    if n == 0 {
      assert s + Slashes(0) == s;
    } else {
      TrimRightSlashes(s, n - 1);
      var q := s + Slashes(n);
      assert q[..|q| - 1] == s + Slashes(n - 1) && q[|q| - 1] == '/';
    }
  }

  /** Trimming takes off all slashes at both ends. */
  lemma {:induction false} TrimPath(lead: nat, s: string, trail: nat)
    requires s != "" ==> s[0] != '/' && s[|s| - 1] != '/'
    requires s == "" ==> trail == 0
    ensures Trim(Slashes(lead) + s + Slashes(trail)) == s
  {
    var q := s + Slashes(trail);
    assert Slashes(lead) + s + Slashes(trail) == Slashes(lead) + q;
    TrimLeftSlashes(lead, q);
    TrimRightSlashes(s, trail);
  }

  lemma {:induction false} JoinOne(parts: seq<string>)
    ensures |parts| == 1 ==> Join(parts) == parts[0]
  {
  }

  lemma {:induction false} FirstComponent(path: string, s: string, a: string, trail: nat)
    requires path == "/" + s + Slashes(trail) && a <= s && (s == a || s[|a|] == '/')
    ensures HasPrefix(path, "/root") <==> HasPrefix(a, "root")
  {
    assert path[1..|s| + 1] == s;
    if HasPrefix(path, "/root") {
      assert path[1] == 'r' && path[2] == 'o' && path[3] == 'o' && path[4] == 't';
      assert |a| >= 4;
      assert a[..4] == "root";
    }
    if HasPrefix(a, "root") {
      assert path[..5] == "/root";
    }
  }

  /** A path begins with "/root" exactly when it has one leading slash and its first component begins with "root". */
  lemma {:induction false} RootPrefix(lead: nat, parts: seq<string>, trail: nat)
    requires Trimmed(parts)
    ensures HasPrefix(Slashes(lead) + Join(parts) + Slashes(trail), "/root") <==> lead == 1 && HasPrefix(parts[0], "root")
  {
    hide Join;
    JoinEnds(parts);
    var s, a := Join(parts), parts[0];
    var path := Slashes(lead) + s + Slashes(trail);
    JoinOne(parts);
    if lead == 0 {
      assert path[0] == s[0];
    } else if lead >= 2 {
      assert path[1] == '/';
    } else {
      FirstComponent(path, s, a, trail);
    }
  }

  lemma {:induction false} JoinHead(ch: char, rest: seq<string>)
    requires rest != []
    ensures Join([[ch] + rest[0]] + rest[1..]) == [ch] + Join(rest)
  {
    var all := [[ch] + rest[0]] + rest[1..];
    assert all[1..] == rest[1..];
    if |rest| > 1 {
      assert [ch] + rest[0] + "/" + Join(rest[1..]) == [ch] + (rest[0] + "/" + Join(rest[1..]));
    }
  }

  /** Joining what a split gave restores the string, and no component holds a slash. */
  lemma {:induction false} JoinSplit(s: string)
    ensures Join(Split(s)) == s
    ensures forall i :: 0 <= i < |Split(s)| ==> SlashFree(Split(s)[i])
  {
    if s == "" {
    } else {
      JoinSplit(s[1..]);
      var rest := Split(s[1..]);
      if s[0] == '/' {
        assert Split(s)[1..] == rest;
        assert "" + "/" + s[1..] == s;
      } else {
        var head := [s[0]] + rest[0];
        assert Split(s)[1..] == rest[1..] && SlashFree(head);
        JoinHead(s[0], rest);
        assert [s[0]] + s[1..] == s;
      }
    }
  }

  lemma {:induction false} LeftSlashes(s: string) returns (n: nat)
    ensures s == Slashes(n) + TrimLeft(s) && (TrimLeft(s) != "" ==> TrimLeft(s)[0] != '/')
  {
    if s == "" || s[0] != '/' {
      n := 0;
    } else {
      n := LeftSlashes(s[1..]);
      assert s == Slashes(n + 1) + TrimLeft(s);
      n := n + 1;
    }
  }

  lemma {:induction false} RightSlashes(s: string) returns (n: nat)
    ensures s == TrimRight(s) + Slashes(n) && (TrimRight(s) != "" ==> TrimRight(s)[|TrimRight(s)| - 1] != '/')
  {
    if s == "" || s[|s| - 1] != '/' {
      n := 0;
    } else {
      n := RightSlashes(s[..|s| - 1]);
      assert s == TrimRight(s) + Slashes(n + 1);
      n := n + 1;
    }
  }

  lemma {:induction false} SplitLast(s: string)
    requires s != "" && s[|s| - 1] != '/'
    ensures Split(s)[|Split(s)| - 1] != ""
  {
    if |s| == 1 {
      assert s[1..] == "";
    } else {
      SplitLast(s[1..]);
    }
  }

  lemma {:induction false} SplitEnds(s: string)
    requires s != "" && s[0] != '/' && s[|s| - 1] != '/'
    ensures Split(s)[0] != "" && Split(s)[|Split(s)| - 1] != ""
  {
    SplitLast(s);
  }

  /** Every path is slashes, then components with single slashes between them, then slashes; or nothing but slashes. */
  lemma {:induction false} PathForm(path: string) returns (lead: nat, parts: seq<string>, trail: nat)
    ensures path == Slashes(lead) + Join(parts) + Slashes(trail)
    ensures Trimmed(parts) || (parts == [] && trail == 0)
  {
    lead := LeftSlashes(path);
    var q := TrimLeft(path);
    trail := RightSlashes(q);
    var s := TrimRight(q);
    if s == "" {
      parts := [];
      assert q == "" by { assert q == Slashes(trail); }
      trail := 0;
    } else {
      parts := Split(s);
      JoinSplit(s);
      assert s[0] == q[0];
      SplitEnds(s);
    }
  }

  // ---- The file tree ---------------------------------------------------------------------------

  type Id = nat

  datatype File = File(name: string, parent: Option<Id>, active: bool, user: int)

  /** Two active files in the same folder. */
  predicate Siblings(a: File, b: File)
  {
    a.active && b.active && a.parent.Some? && a.parent == b.parent
  }

  /** A user's files, and a rank that shows parents are above their children. */
  datatype Tree = Tree(files: map<Id, File>, rank: map<Id, nat>, root: Id, user: int)
  {
    ghost predicate Valid()
    {
      && root in files && files[root] == File("root", None, true, user)
      && (forall id :: id in files ==>
            && id in rank && IsName(files[id].name)
            && (files[id].parent.Some? ==>
                  files[id].parent.value in files && files[id].parent.value in rank
                  && rank[files[id].parent.value] < rank[id]))
      && (forall id :: id in files && files[id].parent.None? && files[id].active && files[id].user == user ==> id == root)
      && (forall a, b :: a in files && b in files && Siblings(files[a], files[b]) && files[a].name == files[b].name ==> a == b)
    }

    /** The node and all its ancestors are active, and the topmost one is the root. */
    ghost predicate Reachable(id: Id)
      requires Valid()
      decreases if id in rank then rank[id] else 0
    {
      && id in files && files[id].active
      && match files[id].parent
         case None => id == root
         case Some(p) => Reachable(p)
    }

    /** The names from the top down to a node. */
    ghost function Names(id: Id): seq<string>
      requires Valid() && id in files
      decreases rank[id]
    {
      (if files[id].parent.Some? then Names(files[id].parent.value) else []) + [files[id].name]
    }

    /** `getFullPath`; an unknown file has the empty path. */
    ghost function FullPath(id: Id): string
      requires Valid()
    {
      if id !in files then "" else TrimPrefix("/" + Join(Names(id)), "/root")
    }

    /** The files the recursive query has reached after `d` components. */
    ghost function Level(parts: seq<string>, d: nat): set<Id>
      requires 1 <= d <= |parts|
    {
      if d == 1 then
        set id | id in files && files[id].parent.None? && files[id].active && files[id].user == user && files[id].name == parts[0]
      else
        set id | id in files && files[id].active && files[id].parent.Some?
                 && files[id].parent.value in Level(parts, d - 1) && files[id].name == parts[d - 1]
    }

    /** The files `resolvePathID` may answer with; none means "not found". */
    ghost function Resolved(path: string): set<Id>
    {
      var p := if HasPrefix(path, "/root") then path else "/root/" + Trim(path);
      var parts := PathParts(Trim(p));
      if parts == [] then {} else Level(parts, |parts|)
    }

    lemma {:induction false} NamesAreNames(id: Id)
      requires Valid() && id in files
      ensures Names(id) != [] && forall i :: 0 <= i < |Names(id)| ==> IsName(Names(id)[i])
      decreases rank[id]
    {
      if files[id].parent.None? {
      } else {
        NamesAreNames(files[id].parent.value);
      }
    }

    /** Whatever the query reaches has exactly the path asked for. */
    lemma {:induction false} LevelHasPath(parts: seq<string>, d: nat, id: Id)
      requires Valid() && 1 <= d <= |parts| && id in Level(parts, d)
      ensures id in files && Names(id) == parts[..d] && Reachable(id)
      decreases d
    {
      if d > 1 {
        LevelHasPath(parts, d - 1, files[id].parent.value);
        assert parts[..d] == parts[..d - 1] + [parts[d - 1]];
      } else {
        assert parts[..1] == [parts[0]];
      }
    }

    /** The query for a node's own path reaches that node. */
    lemma {:induction false} PathReaches(id: Id, parts: seq<string>)
      requires Valid() && Reachable(id) && Names(id) <= parts
      ensures 1 <= |Names(id)| <= |parts| && id in Level(parts, |Names(id)|)
      decreases rank[id]
    {
      var f := files[id];
      if f.parent.None? {
      } else {
        NamesAreNames(f.parent.value);
        assert Names(f.parent.value) <= Names(id);
        PathReaches(f.parent.value, parts);
      }
      assert parts[|Names(id)| - 1] == f.name;
    }

    /** Nodes with active ancestors are told apart by their paths. */
    lemma {:induction false} SameNames(a: Id, b: Id)
      requires Valid() && Reachable(a) && Reachable(b) && Names(a) == Names(b)
      ensures a == b
      decreases rank[a]
    {
      var fa, fb := files[a], files[b];
      if fa.parent.Some? {
        NamesAreNames(fa.parent.value);
      }
      if fb.parent.Some? {
        NamesAreNames(fb.parent.value);
      }
      assert Names(a)[..|Names(a)| - 1] == Names(b)[..|Names(b)| - 1];
      if fa.parent.Some? && fb.parent.Some? {
        assert Names(fa.parent.value) == Names(a)[..|Names(a)| - 1];
        assert Names(fb.parent.value) == Names(b)[..|Names(b)| - 1];
        SameNames(fa.parent.value, fb.parent.value);
      }
    }

    lemma {:induction false} LevelOfOwnPath(id: Id)
      requires Valid() && Reachable(id)
      ensures Names(id) != [] && Level(Names(id), |Names(id)|) == {id}
    {
      var names := Names(id);
      PathReaches(id, names);
      forall x | x in Level(names, |names|)
        ensures x == id
      {
        LevelHasPath(names, |names|, x);
        assert names[..|names|] == names;
        SameNames(x, id);
      }
    }

    lemma {:induction false} RootFirst(id: Id)
      requires Valid() && Reachable(id)
      ensures Names(id) != [] && Names(id)[0] == "root" && (|Names(id)| == 1 <==> id == root)
      decreases rank[id]
    {
      if files[id].parent.None? {
      } else {
        NamesAreNames(files[id].parent.value);
        RootFirst(files[id].parent.value);
      }
    }

    /** The printed path: empty for the root, else the components below it. */
    lemma {:induction false} PrintedPath(id: Id)
      requires Valid() && Reachable(id)
      ensures Names(id) != [] && FullPath(id) == if id == root then "" else "/" + Join(Names(id)[1..])
    {
      RootFirst(id);
      var names := Names(id);
      if id == root {
        assert Join(names) == "root" && "/" + "root" == "/root";
      } else {
        assert Join(names) == "root" + "/" + Join(names[1..]);
        assert "/" + Join(names) == "/root" + ("/" + Join(names[1..]));
      }
    }

    lemma {:induction false} RootedJoin(rest: seq<string>)
      requires Trimmed(rest)
      ensures Trimmed(["root"] + rest)
      ensures "/root/" + Join(rest) == Slashes(1) + Join(["root"] + rest) + Slashes(0)
    {
      var all := ["root"] + rest;
      assert Join(all) == "root" + "/" + Join(rest) by { assert all[1..] == rest; }
      assert "/root/" + Join(rest) == "/" + ("root" + "/" + Join(rest));
    }

    /** The components a path is resolved by: those written, below the root unless the path begins with "/root". */
    function Components(lead: nat, parts: seq<string>): seq<string>
      requires parts != []
    {
      if lead == 1 && HasPrefix(parts[0], "root") then parts else ["root"] + parts
    }

    lemma {:induction false} ResolvedParts(lead: nat, rest: seq<string>, trail: nat)
      requires Trimmed(rest)
      ensures var parts := Components(lead, rest);
              Resolved(Slashes(lead) + Join(rest) + Slashes(trail)) == Level(parts, |parts|)
    {
      hide Level, Split, Trim, HasPrefix, SlashFree, Join, Slashes;
      var s := Join(rest);
      RootPrefix(lead, rest, trail);
      JoinEnds(rest);
      TrimPath(lead, s, trail);
      if lead == 1 && HasPrefix(rest[0], "root") {
        SplitJoin(rest);
      } else {
        var all := ["root"] + rest;
        RootedJoin(rest);
        JoinEnds(all);
        TrimPath(1, Join(all), 0);
        SplitJoin(all);
      }
    }

    lemma {:induction false} RootAlone()
      ensures PathParts(Trim("/root/" + "")) == ["root"]
    {
      TrimPath(1, "root", 1);
      assert "/root/" + "" == Slashes(1) + "root" + Slashes(1);
      SplitName("root");
    }

    /** The empty path is the root, and so is one of slashes. */
    lemma {:induction false} ResolvedRoot(n: nat)
      requires Valid()
      ensures Resolved(Slashes(n) + Join([]) + Slashes(0)) == {root}
    {
      var path := Slashes(n) + Join([]) + Slashes(0);
      TrimPath(n, "", 0);
      assert |path| > 1 ==> path[1] == '/';
      assert "/root"[1] == 'r';
      RootAlone();
      LevelOfOwnPath(root);
      assert Names(root) == ["root"];
    }

    /** The root, or a file whose first component below the root does not begin with "root". */
    ghost predicate Printable(id: Id)
      requires Valid() && id in files
    {
      id == root || (|Names(id)| > 1 && !HasPrefix(Names(id)[1], "root"))
    }

    ghost predicate HasPath(id: Id, names: seq<string>)
      requires Valid()
    {
      id in files && Reachable(id) && Names(id) == names
    }

    /** A path that is taken for one that already starts at the root reaches what stands there, if anything. */
    lemma {:induction false} TakenForRooted(rest: seq<string>)
      requires Valid() && rest != []
      ensures forall x :: x in Level(rest, |rest|) <==> HasPath(x, rest)
      ensures rest[0] != "root" ==> Level(rest, |rest|) == {}
    {
      hide Level;
      assert rest[..|rest|] == rest;
      forall x
        ensures x in Level(rest, |rest|) <==> HasPath(x, rest)
        ensures HasPath(x, rest) ==> rest[0] == "root"
      {
        if x in Level(rest, |rest|) {
          LevelHasPath(rest, |rest|, x);
        }
        if HasPath(x, rest) {
          PathReaches(x, rest);
          RootFirst(x);
        }
      }
    }

    lemma {:induction false} OneSlash(rest: seq<string>)
      ensures "/" + Join(rest) == Slashes(1) + Join(rest) + Slashes(0)
    {
    }

    /** What any path resolves to. Slashes at the end do not matter; a path without a leading slash, or with several, is
        always taken to start below the root; with one it is taken to start at the root if its first component begins
        with "root". With empty components inside it, it resolves to nothing; with nothing but slashes, to the root. */
    lemma {:induction false} ResolvesExactly(lead: nat, parts: seq<string>, trail: nat)
      requires Valid() && (Trimmed(parts) || (parts == [] && trail == 0))
      ensures var path := Slashes(lead) + Join(parts) + Slashes(trail);
              && (parts == [] ==> Resolved(path) == {root})
              && (parts != [] ==> forall x :: x in Resolved(path) <==> HasPath(x, Components(lead, parts)))
              && ((exists i :: 0 <= i < |parts| && parts[i] == "") ==> Resolved(path) == {})
    {
      hide Resolved, Level, Join, Slashes, HasPrefix;
      if parts == [] {
        ResolvedRoot(lead);
      } else {
        var all := Components(lead, parts);
        ResolvedParts(lead, parts, trail);
        TakenForRooted(all);
        if i :| 0 <= i < |parts| && parts[i] == "" {
          assert all[if all == parts then i else i + 1] == "";
          forall x
            ensures !HasPath(x, all)
          {
            if x in files {
              NamesAreNames(x);
            }
          }
        }
      }
    }

    /** Resolving a printed path finds the file again, exactly when the first component below the root does not begin
        with "root". Otherwise the path is taken for one that already starts at the root: it reaches nothing if that
        component is not "root" itself, and if it is, whatever file has that shorter path, never the one printed. */
    lemma {:induction false} ResolvePrintRoundTrip(id: Id)
      requires Valid() && Reachable(id)
      ensures Resolved(FullPath(id)) == {id} <==> Printable(id)
      ensures !Printable(id) ==>
                && |Names(id)| > 1 && id !in Resolved(FullPath(id))
                && (forall x :: x in Resolved(FullPath(id)) <==> HasPath(x, Names(id)[1..]))
                && (Names(id)[1] != "root" ==> Resolved(FullPath(id)) == {})
    {
      hide Resolved, Level, FullPath;
      RootFirst(id);
      PrintedPath(id);
      NamesAreNames(id);
      if id == root {
        ResolvedRoot(0);
        assert "" == Slashes(0) + Join([]) + Slashes(0);
      } else {
        var names := Names(id);
        var rest := names[1..];
        NamesAreTrimmed(rest);
        OneSlash(rest);
        ResolvedParts(1, rest, 0);
        assert names == ["root"] + rest;
        if Printable(id) {
          LevelOfOwnPath(id);
        } else {
          TakenForRooted(rest);
        }
      }
    }
  }

  function RootfsTree(): Tree
  {
    Tree(map[1 := File("root", None, true, 9), 2 := File("rootfs", Some(1), true, 9)], map[1 := 0, 2 := 1], 1, 9)
  }

  lemma {:induction false} RootfsTreeValid()
    ensures RootfsTree().Valid() && 2 in RootfsTree().files && RootfsTree().Reachable(2)
    ensures RootfsTree().Names(2) == ["root", "rootfs"]
  {
    var tree := RootfsTree();
    assert IsName("root") && IsName("rootfs");
    assert tree.Valid();
    assert tree.Names(1) == ["root"];
  }

  /** A folder named "rootfs" under the root: its printed path "/rootfs" does not resolve to it. */
  lemma {:induction false} RootLikeNameIsLost()
    ensures exists tree: Tree, id: Id :: tree.Valid() && tree.Reachable(id) && tree.Resolved(tree.FullPath(id)) != {id}
  {
    hide Tree.Resolved, Tree.FullPath, Tree.Reachable, Tree.Valid, Tree.Names, Tree.Level, RootfsTree;
    RootfsTreeValid();
    var tree := RootfsTree();
    assert "rootfs"[..4] == "root";
    tree.ResolvePrintRoundTrip(2);
    tree.RootFirst(2);
    assert !tree.Printable(2);
  }
}
