/**
 Path components, the `/`-joined text that travels in a manifest, and the order
 in which directory children are sorted.
 */
module Paths {
  import opened Base

  predicate ValidName(s: string) {
    s != "" && s != "." && s != ".." && '/' !in s
  }

  /** The name of a directory entry. */
  type Name = s: string | ValidName(s) witness "a"

  /** A path as its list of components below the root directory. */
  type Path = seq<Name>

  datatype PathError = InvalidTransferPath(text: string)

  /** The text a path is sent as. */
  function PathText(path: Path): string {
    if path == [] then ""
    else if |path| == 1 then path[0]
    else path[0] + "/" + PathText(path[1..])
  }

  /** What lies between the slashes. */
  function SplitSlash(s: string): (parts: seq<string>)
    ensures |parts| >= 1
    ensures forall part | part in parts :: '/' !in part
  {
    if s == "" then [""]
    else
      var later := SplitSlash(s[1..]);
      if s[0] == '/' then [""] + later else [[s[0]] + later[0]] + later[1..]
  }

  datatype Component = RootDir | CurDir | ParentDir | Normal(part: Name)

  function PartComponents(parts: seq<string>): seq<Component>
    requires forall part | part in parts :: '/' !in part
  {
    if parts == [] then []
    else
      var later := PartComponents(parts[1..]);
      if parts[0] == "" || parts[0] == "." then later
      else if parts[0] == ".." then [ParentDir] + later
      else [Normal(parts[0])] + later
  }

  /** The components of a path text: repeated slashes and inner dots vanish, a leading dot does not. */
  function Components(s: string): seq<Component> {
    var parts := SplitSlash(s);
    if s != "" && s[0] == '/' then [RootDir] + PartComponents(parts)
    else if parts[0] == "." then [CurDir] + PartComponents(parts[1..])
    else PartComponents(parts)
  }

  ghost predicate AllNormal(components: seq<Component>) {
    forall i | 0 <= i < |components| :: components[i].Normal?
  }

  function NormalParts(components: seq<Component>): Path
    requires AllNormal(components)
  {
    seq<Name>(|components|, i requires 0 <= i < |components| => components[i].part)
  }

  /** Joining a received relative path accepts exactly the texts made of normal components. */
  method JoinTransferRelativePath(base: Path, relativePath: string) returns (r: Result<Path, PathError>)
    ensures AllNormal(Components(relativePath)) ==> r == Ok(base + NormalParts(Components(relativePath)))
    ensures !AllNormal(Components(relativePath)) ==> r == Err(InvalidTransferPath(relativePath))
  {
    if relativePath == "" {
      assert SplitSlash("") == [""];
      assert base + NormalParts(Components("")) == base;
      return Ok(base);
    }
    var resolved := base;
    var components := Components(relativePath);
    for i := 0 to |components|
      invariant AllNormal(components[..i])
      invariant resolved == base + NormalParts(components[..i])
    {
      assert components[..i + 1] == components[..i] + [components[i]];
      match components[i] {
        case Normal(part) => resolved := resolved + [part];
        case _ =>
          assert !components[i].Normal?;
          return Err(InvalidTransferPath(relativePath));
      }
    }
    assert components[..|components|] == components;
    r := Ok(resolved);
  }

  /** The same join as a function, for specifications. */
  ghost function Join(base: Path, relativePath: string): Result<Path, PathError> {
    if AllNormal(Components(relativePath)) then Ok(base + NormalParts(Components(relativePath)))
    else Err(InvalidTransferPath(relativePath))
  }

  lemma {:induction false} SplitName(name: string, rest: string)
    requires '/' !in name
    ensures SplitSlash(name) == [name]
    ensures SplitSlash(name + "/" + rest) == [name] + SplitSlash(rest)
  {
    if name == "" {
      assert ("/" + rest)[1..] == rest;
      assert name + "/" + rest == "/" + rest;
    } else {
      SplitName(name[1..], rest);
      assert (name + "/" + rest)[1..] == name[1..] + "/" + rest;
      assert [name[0]] + name[1..] == name;
    }
  }

  lemma {:induction false} SplitPathText(path: Path)
    requires path != []
    ensures SplitSlash(PathText(path)) == path
  {
    if |path| == 1 {
      SplitName(path[0], "");
    } else {
      SplitName(path[0], PathText(path[1..]));
      SplitPathText(path[1..]);
    }
  }

  lemma {:induction false} NamesAreNormal(names: Path)
    ensures |PartComponents(names)| == |names|
    ensures forall i | 0 <= i < |names| :: PartComponents(names)[i] == Normal(names[i])
  {
    if names != [] {
      NamesAreNormal(names[1..]);
    }
  }

  lemma LeadingSlash(s: string)
    ensures s != "" && s[0] == '/' <==> s != "" && SplitSlash(s)[0] == "" && |SplitSlash(s)| > 1
  {
  }

  /** Joining the text of any component list appends exactly that list. */
  lemma JoinPathText(base: Path, path: Path)
    ensures Join(base, PathText(path)) == Ok(base + path)
  {
    if path == [] {
      assert SplitSlash("") == [""];
      assert Components("") == [];
      assert base + NormalParts([]) == base + path;
    } else {
      SplitPathText(path);
      NamesAreNormal(path);
      var s := PathText(path);
      LeadingSlash(s);
      assert NormalParts(Components(s)) == path;
    }
  }

  /** No two component lists share a text. */
  lemma PathTextInjective(p: Path, q: Path)
    requires PathText(p) == PathText(q)
    ensures p == q
  {
    hide *;
    JoinPathText([], p);
    JoinPathText([], q);
    assert [] + p == p && [] + q == q;
  }

  /** An accepted path stays below the base, and a rejected one has a root, dot or dot-dot component. */
  lemma JoinStaysBelow(base: Path, relativePath: string)
    ensures match Join(base, relativePath)
            case Ok(p) => base <= p && |p| == |base| + |Components(relativePath)|
            case Err(_) => exists i :: 0 <= i < |Components(relativePath)| && !Components(relativePath)[i].Normal?
  {
  }

  /** The parts with slashes between them. */
  function Slashed(parts: seq<string>): string
    requires parts != []
  {
    if |parts| == 1 then parts[0] else parts[0] + "/" + Slashed(parts[1..])
  }

  /** Splitting is undone by putting the slashes back. */
  lemma {:induction false} SplitIsSlashed(s: string)
    ensures Slashed(SplitSlash(s)) == s
  {
    if s != "" {
      var later := SplitSlash(s[1..]);
      SplitIsSlashed(s[1..]);
      assert s == [s[0]] + s[1..];
      if s[0] == '/' {
        assert ([""] + later)[1..] == later;
      } else {
        assert ([[s[0]] + later[0]] + later[1..])[1..] == later[1..];
      }
    }
  }

  /** The parts that name something. */
  function NamingParts(parts: seq<string>): (names: seq<string>) {
    if parts == [] then []
    else (if parts[0] == "" || parts[0] == "." then [] else [parts[0]]) + NamingParts(parts[1..])
  }

  lemma {:induction false} PartsAreNormal(parts: seq<string>)
    requires forall part | part in parts :: '/' !in part
    ensures AllNormal(PartComponents(parts)) <==> forall i | 0 <= i < |parts| :: parts[i] != ".."
    ensures AllNormal(PartComponents(parts)) ==> NormalParts(PartComponents(parts)) == NamingParts(parts)
  {
    if parts != [] {
      var cs, later := PartComponents(parts), PartComponents(parts[1..]);
      PartsAreNormal(parts[1..]);
      if parts[0] == "" || parts[0] == "." {
        assert cs == later;
      } else {
        assert cs[1..] == later;
        assert AllNormal(cs) ==> forall i | 0 <= i < |later| :: cs[i + 1] == later[i];
        assert AllNormal(later) && cs[0].Normal? ==> forall i | 0 < i < |cs| :: cs[i] == later[i - 1];
      }
      assert forall i | 0 < i < |parts| :: parts[i] == parts[1..][i - 1];
    }
  }

  /**
   A received text is accepted exactly when it has no slash in front, no dot in front and no dot-dot between its slashes,
   and it appends its parts but the empty ones and the dots.
   */
  lemma JoinAcceptsIff(base: Path, text: string)
    ensures var parts := SplitSlash(text);
            (Join(base, text).Ok? <==>
               !(text != "" && text[0] == '/') && parts[0] != "." && forall i | 0 <= i < |parts| :: parts[i] != "..") &&
            (Join(base, text).Ok? ==> Join(base, text).value == base + NamingParts(parts))
  {
    var parts := SplitSlash(text);
    PartsAreNormal(parts);
    if text != "" && text[0] == '/' {
      assert Components(text)[0] == RootDir;
    } else if parts[0] == "." {
      assert Components(text)[0] == CurDir;
    }
  }

  // ---------------------------------------------------------------------
  // Order
  // ---------------------------------------------------------------------

  /** Names compare character by character, a proper prefix first. */
  predicate NameLess(a: string, b: string) {
    if b == "" then false
    else if a == "" then true
    else a[0] < b[0] || (a[0] == b[0] && NameLess(a[1..], b[1..]))
  }

  /** Paths compare component by component. */
  predicate PathLess(p: Path, q: Path) {
    if q == [] then false
    else if p == [] then true
    else NameLess(p[0], q[0]) || (p[0] == q[0] && PathLess(p[1..], q[1..]))
  }

  /** They agree up to some place, where the first ends or has the smaller character. */
  lemma {:induction false} NameLessIff(a: string, b: string)
    ensures NameLess(a, b) <==>
            exists k: nat | k <= |a| && k < |b| :: a[..k] == b[..k] && (k == |a| || a[k] < b[k])
  {
    if a != "" && b != "" && a[0] == b[0] {
      NameLessIff(a[1..], b[1..]);
      if k: nat :| k <= |a[1..]| && k < |b[1..]| && a[1..][..k] == b[1..][..k] && (k == |a[1..]| || a[1..][k] < b[1..][k]) {
        assert a[..k + 1] == [a[0]] + a[1..][..k] && b[..k + 1] == [b[0]] + b[1..][..k];
      }
      if k: nat :| k <= |a| && k < |b| && a[..k] == b[..k] && (k == |a| || a[k] < b[k]) {
        assert k > 0;
        assert a[1..][..k - 1] == a[..k][1..] && b[1..][..k - 1] == b[..k][1..];
      }
    } else if a != "" && b != "" {
      assert a[..0] == b[..0];
      forall k: nat | 0 < k <= |a| && k < |b|
        ensures a[..k] != b[..k]
      {
        assert a[..k][0] != b[..k][0];
      }
    } else if b != "" {
      assert a[..0] == b[..0];
    }
  }

  lemma {:induction false} PathLessIff(p: Path, q: Path)
    ensures PathLess(p, q) <==>
            exists k: nat | k <= |p| && k < |q| :: p[..k] == q[..k] && (k == |p| || NameLess(p[k], q[k]))
  {
    if p != [] && q != [] {
      NameOrderTotal(p[0], q[0]);
      if p[0] == q[0] {
        PathLessIff(p[1..], q[1..]);
        if k: nat :| k <= |p[1..]| && k < |q[1..]| && p[1..][..k] == q[1..][..k] && (k == |p[1..]| || NameLess(p[1..][k], q[1..][k])) {
          assert p[..k + 1] == [p[0]] + p[1..][..k] && q[..k + 1] == [q[0]] + q[1..][..k];
        }
        if k: nat :| k <= |p| && k < |q| && p[..k] == q[..k] && (k == |p| || NameLess(p[k], q[k])) {
          assert k > 0;
          assert p[1..][..k - 1] == p[..k][1..] && q[1..][..k - 1] == q[..k][1..];
        }
      } else {
        assert p[..0] == q[..0];
        forall k: nat | 0 < k <= |p| && k < |q|
          ensures p[..k] != q[..k]
        {
          assert p[..k][0] != q[..k][0];
        }
      }
    } else if q != [] {
      assert p[..0] == q[..0];
    }
  }

  lemma {:induction false} NameOrderTotal(a: string, b: string)
    ensures NameLess(a, b) || NameLess(b, a) || a == b
    ensures !(NameLess(a, b) && NameLess(b, a))
    ensures !NameLess(a, a)
  {
    if a != "" {
      NameOrderTotal(a[1..], a[1..]);
      if b != "" {
        NameOrderTotal(a[1..], b[1..]);
        if a[0] == b[0] && a[1..] == b[1..] {
          assert a == [a[0]] + a[1..] == b;
        }
      }
    }
  }

  lemma {:induction false} NameOrderTransitive(a: string, b: string, c: string)
    requires NameLess(a, b) && NameLess(b, c)
    ensures NameLess(a, c)
  {
    if a != "" && a[0] == b[0] == c[0] {
      NameOrderTransitive(a[1..], b[1..], c[1..]);
    }
  }

  lemma {:induction false} PathOrderAsymmetric(p: Path, q: Path)
    ensures !(PathLess(p, q) && PathLess(q, p))
    ensures !PathLess(p, p)
  {
    if p != [] {
      NameOrderTotal(p[0], p[0]);
      PathOrderAsymmetric(p[1..], p[1..]);
      if q != [] {
        NameOrderTotal(p[0], q[0]);
        PathOrderAsymmetric(p[1..], q[1..]);
      }
    }
  }

  /** A proper prefix comes first. */
  lemma {:induction false} PrefixFirst(p: Path, q: Path)
    requires p < q
    ensures PathLess(p, q)
  {
    if p != [] {
      assert p[1..] < q[1..];
      PrefixFirst(p[1..], q[1..]);
    }
  }

  /** The first differing component decides. */
  lemma {:induction false} DivergenceDecides(at: Path, p: Path, q: Path)
    requires at < p && at < q && NameLess(p[|at|], q[|at|])
    ensures PathLess(p, q)
  {
    if at != [] {
      DivergenceDecides(at[1..], p[1..], q[1..]);
    }
  }
}
