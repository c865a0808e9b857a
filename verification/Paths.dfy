/** Go's path/filepath on Unix: Clean, Abs, and what Rel says about one path below
    another. */
module Paths {
  import opened Text

  predicate IsRooted(path: string) {
    path != "" && path[0] == '/'
  }

  /** One more element of a path. */
  function Push(parts: seq<string>, part: string, rooted: bool): seq<string> {
    if part == "" || part == "." then parts
    else if part == ".." then
      if parts != [] && parts[|parts| - 1] != ".." then parts[..|parts| - 1]
      else if rooted then parts
      else parts + [".."]
    else parts + [part]
  }

  function PushAll(elements: seq<string>, rooted: bool): seq<string> {
    if elements == [] then [] else Push(PushAll(elements[..|elements| - 1], rooted), elements[|elements| - 1], rooted)
  }

  /** The elements a path comes down to. */
  function Parts(path: string): seq<string> {
    PushAll(Split(path, '/'), IsRooted(path))
  }

  function Clean(path: string): string {
    if IsRooted(path) then "/" + Join(Parts(path), '/')
    else if Parts(path) == [] then "."
    else Join(Parts(path), '/')
  }

  function Abs(path: string, directory: string): string {
    if IsRooted(path) then Clean(path) else Clean(directory + "/" + path)
  }

  /** filepath.Join of two elements. */
  function Under(first: string, second: string): string {
    if first == "" && second == "" then "" else if first == "" then Clean(second) else Clean(first + "/" + second)
  }

  function CommonPrefix(a: seq<string>, b: seq<string>): (n: nat)
    ensures n <= |a| && n <= |b| && a[..n] == b[..n]
    ensures n < |a| && n < |b| ==> a[n] != b[n]
  {
    if a != [] && b != [] && a[0] == b[0] then 1 + CommonPrefix(a[1..], b[1..]) else 0
  }

  function Ups(n: nat): (ups: seq<string>)
    ensures |ups| == n && forall i :: 0 <= i < n ==> ups[i] == ".."
  {
    seq(n, _ => "..")
  }

  /** filepath.Rel of two rooted, clean paths. */
  function Rel(base: string, target: string): string {
    var b, t := Parts(base), Parts(target);
    var n := CommonPrefix(b, t);
    if b == t then "." else Join(Ups(|b| - n) + t[n..], '/')
  }

  /** The test the source makes of the relative path. */
  predicate IsInside(relative: string) {
    relative == "." || (relative != ".." && !("../" <= relative))
  }

  // ---------------------------------------------------------------------------

  predicate IsProper(part: string) {
    part != "" && part != "." && part != ".." && '/' !in part
  }

  predicate AllProper(parts: seq<string>) {
    forall i :: 0 <= i < |parts| ==> IsProper(parts[i])
  }

  lemma {:induction false} PushAllIsProper(elements: seq<string>)
    requires forall i :: 0 <= i < |elements| ==> '/' !in elements[i]
    ensures AllProper(PushAll(elements, true))
  {
    if elements != [] { PushAllIsProper(elements[..|elements| - 1]); }
  }

  /** A rooted path comes down to proper elements. */
  lemma PartsAreProper(path: string)
    requires IsRooted(path)
    ensures AllProper(Parts(path))
  {
    SplitPieces(path, '/');
    PushAllIsProper(Split(path, '/'));
  }

  lemma {:induction false} ProperStays(parts: seq<string>, rooted: bool)
    requires AllProper(parts)
    ensures PushAll([""] + parts, rooted) == parts
  {
    if parts == [] {
      assert [""] + parts == [""] && [""][..0] == [];
    } else {
      var all, k := [""] + parts, |parts| - 1;
      assert all[..|all| - 1] == [""] + parts[..k] && all[|all| - 1] == parts[k];
      ProperStays(parts[..k], rooted);
    }
  }

  lemma SplitRooted(parts: seq<string>)
    requires AllProper(parts) && parts != []
    ensures Split("/" + Join(parts, '/'), '/') == [""] + parts
  {
    SplitOfJoin(parts, '/');
    SplitPieces("", '/');
    SplitConcat("", '/', Join(parts, '/'));
    assert "" + ['/'] + Join(parts, '/') == "/" + Join(parts, '/');
  }

  /** Cleaning keeps the elements, so cleaning again changes nothing. */
  lemma CleanTwice(path: string)
    requires IsRooted(path)
    ensures IsRooted(Clean(path)) && Parts(Clean(path)) == Parts(path) && Clean(Clean(path)) == Clean(path)
  {
    hide Split, Join, PushAll;
    PartsAreProper(path);
    var parts := Parts(path);
    if parts == [] {
      JoinOfNothing();
      RootHasNoParts();
    } else {
      SplitRooted(parts);
      ProperStays(parts, true);
    }
  }

  lemma JoinOfNothing()
    ensures Join([], '/') == "" && "/" + "" == "/"
  {}

  lemma RootHasNoParts()
    ensures Parts("/") == []
  {
    assert Split("/", '/') == ["", ""];
    assert ["", ""][..1] == [""] && [""][..0] == [];
  }

  lemma FirstElement(parts: seq<string>)
    requires parts != [] && forall i :: 0 <= i < |parts| ==> '/' !in parts[i]
    ensures Split(Join(parts, '/'), '/')[0] == parts[0]
  {
    SplitOfJoin(parts, '/');
  }

  lemma OutsideStarts(relative: string)
    ensures !IsInside(relative) ==> Split(relative, '/')[0] == ".."
    ensures relative == "." ==> Split(relative, '/')[0] == "."
  {
    hide Split;
    SplitPieces("..", '/');
    SplitPieces(".", '/');
    if "../" <= relative {
      var rest := relative[3..];
      assert relative == ".." + ['/'] + rest;
      SplitConcat("..", '/', rest);
    }
  }

  lemma InsideStarts(relative: string)
    requires Split(relative, '/')[0] == ".."
    ensures !IsInside(relative)
  {
    hide Split;
    JoinOfSplit(relative, '/');
    var all := Split(relative, '/');
    SplitPieces(".", '/');
    if |all| == 1 {
      assert relative == "..";
    } else {
      assert relative == ".." + ['/'] + Join(all[1..], '/');
    }
  }

  /** The relative path stays inside exactly when the base's elements begin the target's. */
  lemma InsideIffPrefix(base: string, target: string)
    requires IsRooted(base) && IsRooted(target)
    ensures IsInside(Rel(base, target)) <==> Parts(base) <= Parts(target)
  {
    hide Split, Join, IsInside, Parts;
    PartsAreProper(base);
    PartsAreProper(target);
    var b, t := Parts(base), Parts(target);
    var n := CommonPrefix(b, t);
    if b == t {
      DotIsInside();
    } else {
      var parts := Ups(|b| - n) + t[n..];
      forall i | 0 <= i < |parts|
        ensures '/' !in parts[i]
      {
        if i >= |b| - n { assert parts[i] == t[n..][i - (|b| - n)]; }
      }
      FirstElement(parts);
      var relative := Join(parts, '/');
      if n < |b| {
        assert parts[0] == "..";
        InsideStarts(relative);
        assert n < |t| ==> b[n] != t[n];
      } else {
        assert parts == t[n..] && parts[0] == t[n];
        OutsideStarts(relative);
        assert b == t[..n];
      }
    }
  }

  lemma DotIsInside()
    ensures IsInside(".")
  {}

  lemma AbsIsRooted(path: string, directory: string)
    requires IsRooted(directory)
    ensures IsRooted(Abs(path, directory)) && Clean(Abs(path, directory)) == Abs(path, directory)
  {
    hide Clean;
    if IsRooted(path) {
      CleanTwice(path);
    } else {
      CleanTwice(directory + "/" + path);
    }
  }

  /** Adding an element at the end of a path. */
  lemma PartsSnoc(path: string, part: string)
    requires path != "" && '/' !in part
    ensures Parts(path + "/" + part) == Push(Parts(path), part, IsRooted(path))
  {
    hide Split, Push;
    SplitPieces(part, '/');
    SplitConcat(path, '/', part);
    assert path + ['/'] + part == path + "/" + part;
    var all := Split(path, '/') + [part];
    assert Split(path + "/" + part, '/') == all;
    assert all[..|all| - 1] == Split(path, '/') && all[|all| - 1] == part;
  }

  /** A single proper element below the root. */
  lemma OneElement(part: string)
    requires IsProper(part)
    ensures Parts("/" + part) == [part] && Clean("/" + part) == "/" + part
  {
    hide Split, Push, Parts;
    SplitRooted([part]);
    assert Join([part], '/') == part;
    ProperStays([part], true);
    PartsOf("/" + part);
  }

  lemma PartsOf(path: string)
    ensures Parts(path) == PushAll(Split(path, '/'), IsRooted(path))
  {}

  /** Clean paths are equal exactly when they have the same elements. */
  lemma CleanIffParts(a: string, b: string)
    requires IsRooted(a) && IsRooted(b)
    ensures Clean(a) == Clean(b) <==> Parts(a) == Parts(b)
  {
    CleanTwice(a);
    CleanTwice(b);
    hide Parts, Join;
  }
}
